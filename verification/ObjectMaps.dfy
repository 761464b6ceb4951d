/** The map from file offsets to HDF5 objects: built from the ranges of the objects, then asked which objects a write
    touches. */
module ObjectMaps {
  import opened Options

  datatype Tag = Superblock | GlobalHeap | Part(group: string, kind: string) | FreeSpace | EndOfFile

  datatype Range = Range(lo: nat, hi: nat, tag: Tag)

  /** One item of the sorted dictionary: from this offset on, up to the next item. */
  datatype Item = Item(off: nat, tag: Tag)

  ghost predicate Sorted(d: seq<Item>) {
    forall i, j {:trigger d[i].off, d[j].off} :: 0 <= i < j < |d| ==> d[i].off < d[j].off
  }

  /** Assignment to a key of the sorted dictionary. */
  function Put(d: seq<Item>, off: nat, tag: Tag): seq<Item> {
    if d == [] then [Item(off, tag)]
    else
      var n := |d| - 1;
      if d[n].off < off then d + [Item(off, tag)]
      else if d[n].off == off then d[..n] + [Item(off, tag)]
      else Put(d[..n], off, tag) + [d[n]]
  }

  /** What one range does to the dictionary; None where there is no last item to look at. */
  function Added(d: seq<Item>, r: Range): Option<seq<Item>> {
    if r.lo == 0 then Some(Put(Put(d, 0, r.tag), r.hi, r.tag))
    else if d == [] then None
    else
      var last := d[|d| - 1];
      if last.off == r.lo && last.tag == r.tag then Some(Put(d[..|d| - 1], r.hi, r.tag))
      else if last.off == r.lo then Some(Put(Put(d, r.lo, r.tag), r.hi, r.tag))
      else Some(Put(Put(Put(d, last.off, FreeSpace), r.lo, r.tag), r.hi, r.tag))
  }

  function AddedAll(rs: seq<Range>): Option<seq<Item>> {
    if rs == [] then Some([])
    else
      var d := AddedAll(rs[..|rs| - 1]);
      if d.None? then None else Added(d.value, rs[|rs| - 1])
  }

  function Closed(d: seq<Item>): seq<Item>
    requires d != []
  {
    Put(d, d[|d| - 1].off, EndOfFile)
  }

  // ------------------------------------------------------------- what the map says

  /** The tag of the segment that an offset lies in. */
  function TagAt(d: seq<Item>, x: nat): Tag {
    if d == [] then FreeSpace
    else if d[|d| - 1].off <= x then d[|d| - 1].tag
    else TagAt(d[..|d| - 1], x)
  }

  /** The tag of the range that holds an offset. */
  function RangeTag(rs: seq<Range>, x: nat): Tag {
    if rs == [] then FreeSpace
    else
      var r := rs[|rs| - 1];
      if r.lo <= x < r.hi then r.tag else RangeTag(rs[..|rs| - 1], x)
  }

  /** Disjoint non-empty ranges in order, the first from the start of the file. */
  ghost predicate Laid(rs: seq<Range>) {
    && rs != [] && rs[0].lo == 0
    && (forall i :: 0 <= i < |rs| ==> rs[i].lo < rs[i].hi && rs[i].tag != FreeSpace && rs[i].tag != EndOfFile)
    && (forall i, j {:trigger rs[i].hi, rs[j].lo} :: 0 <= i < j < |rs| ==> rs[i].hi <= rs[j].lo)
  }

  /** Neighbouring segments have different tags. */
  ghost predicate Apart(d: seq<Item>) {
    forall i {:trigger d[i].tag} :: 0 <= i < |d| - 1 ==> d[i].tag != d[i + 1].tag
  }

  /** The map while it is built: right up to the end of the last range, which the last item only marks. */
  ghost predicate Maps(d: seq<Item>, rs: seq<Range>) {
    && rs != [] && |d| >= 2 && Sorted(d) && d[0].off == 0
    && d[|d| - 1] == Item(rs[|rs| - 1].hi, rs[|rs| - 1].tag) && d[|d| - 2].tag == rs[|rs| - 1].tag
    && Apart(d[..|d| - 1])
    && (forall x {:trigger TagAt(d, x)} :: 0 <= x < rs[|rs| - 1].hi ==> TagAt(d, x) == RangeTag(rs, x))
  }

  lemma {:induction false} RangeTagBehind(rs: seq<Range>, x: nat)
    requires forall i :: 0 <= i < |rs| ==> rs[i].hi <= x
    ensures RangeTag(rs, x) == FreeSpace
  {
    if rs != [] { RangeTagBehind(rs[..|rs| - 1], x); }
  }

  lemma TagAtAppend(d: seq<Item>, off: nat, tag: Tag, x: nat)
    ensures TagAt(d + [Item(off, tag)], x) == if off <= x then tag else TagAt(d, x)
  {
    assert (d + [Item(off, tag)])[..|d|] == d;
  }

  lemma PutBehind(d: seq<Item>, off: nat, tag: Tag)
    requires d == [] || d[|d| - 1].off < off
    ensures Put(d, off, tag) == d + [Item(off, tag)]
  {}

  lemma PutOver(d: seq<Item>, last: Item, tag: Tag)
    ensures Put(d + [last], last.off, tag) == d + [Item(last.off, tag)]
  {
    assert (d + [last])[..|d|] == d;
  }

  lemma MapsFirst(r: Range)
    requires Laid([r])
    ensures Added([], r).Some? && Maps(Added([], r).value, [r])
  {
    assert r == [r][0];
    var d0 := [Item(0, r.tag)];
    var d := d0 + [Item(r.hi, r.tag)];
    PutBehind([], 0, r.tag);
    PutBehind(d0, r.hi, r.tag);
    assert [] + d0 == d0;
    assert Added([], r) == Some(d);
    forall x | 0 <= x < r.hi ensures TagAt(d, x) == RangeTag([r], x) {
      TagAtAppend(d0, r.hi, r.tag, x);
      TagAtAppend([], 0, r.tag, x);
    }
  }

  /** The items that stay, and what is put before the end of the new range. */
  function Before(p: seq<Item>, last: Item, r: Range): seq<Item> {
    if last.off == r.lo && last.tag == r.tag then p
    else if last.off == r.lo then p + [Item(r.lo, r.tag)]
    else p + [Item(last.off, FreeSpace)] + [Item(r.lo, r.tag)]
  }

  lemma AddedIs(p: seq<Item>, last: Item, r: Range)
    requires Sorted(p + [last]) && 0 < r.lo < r.hi && last.off <= r.lo
    ensures Added(p + [last], r) == Some(Before(p, last, r) + [Item(r.hi, r.tag)])
  {
    var d := p + [last];
    assert d[..|d| - 1] == p && d[|d| - 1] == last;
    if p != [] { assert d[|p| - 1].off < d[|p|].off; }
    var q := Before(p, last, r);
    if last.off == r.lo && last.tag == r.tag {
      PutBehind(q, r.hi, r.tag);
    } else if last.off == r.lo {
      PutOver(p, last, r.tag);
      PutBehind(q, r.hi, r.tag);
    } else {
      AddedGap(p, last, r);
    }
  }

  lemma AddedGap(p: seq<Item>, last: Item, r: Range)
    requires last.off < r.lo < r.hi
    ensures Put(Put(Put(p + [last], last.off, FreeSpace), r.lo, r.tag), r.hi, r.tag)
            == p + [Item(last.off, FreeSpace)] + [Item(r.lo, r.tag)] + [Item(r.hi, r.tag)]
  {
    PutOver(p, last, FreeSpace);
    PutBehind(p + [Item(last.off, FreeSpace)], r.lo, r.tag);
    PutBehind(p + [Item(last.off, FreeSpace)] + [Item(r.lo, r.tag)], r.hi, r.tag);
  }

  /** What the map says once a range has been added. */
  lemma TagsNext(p: seq<Item>, last: Item, r: Range, x: nat)
    requires p != [] && p[|p| - 1].off < last.off && p[|p| - 1].tag == last.tag && last.off <= r.lo < r.hi
    ensures TagAt(Before(p, last, r) + [Item(r.hi, r.tag)], x) ==
            if x >= r.lo then r.tag else if x >= last.off then FreeSpace else TagAt(p + [last], x)
  {
    TagAtAppend(Before(p, last, r), r.hi, r.tag, x);
    TagAtAppend(p, last.off, last.tag, x);
    assert last == Item(last.off, last.tag);
    TagAtAppend(p, r.lo, r.tag, x);
    TagAtAppend(p, last.off, FreeSpace, x);
    TagAtAppend(p + [Item(last.off, FreeSpace)], r.lo, r.tag, x);
  }

  lemma RangeTagNext(rs: seq<Range>, r: Range, hi: nat, x: nat)
    requires forall i :: 0 <= i < |rs| ==> rs[i].hi <= hi
    requires hi <= r.lo && x < r.hi
    ensures RangeTag(rs + [r], x) == if x >= r.lo then r.tag else if x >= hi then FreeSpace else RangeTag(rs, x)
  {
    assert (rs + [r])[..|rs|] == rs;
    if x >= hi { RangeTagBehind(rs, x); }
  }

  lemma SortedAppend(d: seq<Item>, it: Item)
    requires Sorted(d) && (d != [] ==> d[|d| - 1].off < it.off)
    ensures Sorted(d + [it])
  {}

  lemma ApartAppend(d: seq<Item>, it: Item)
    requires Apart(d) && (d != [] ==> d[|d| - 1].tag != it.tag)
    ensures Apart(d + [it])
  {
    var e := d + [it];
    forall i | 0 <= i < |e| - 1 ensures e[i].tag != e[i + 1].tag {
      if i < |d| - 1 { assert d[i].tag != d[i + 1].tag; }
    }
  }

  /** Adding a range behind the others keeps the map in order. */
  lemma ShapeNext(p: seq<Item>, last: Item, r: Range)
    requires p != [] && Sorted(p) && p[|p| - 1].off < last.off && p[0].off == 0
    requires p[|p| - 1].tag == last.tag && Apart(p)
    requires last.off <= r.lo < r.hi && last.tag != FreeSpace && r.tag != FreeSpace
    ensures var e := Before(p, last, r);
            && e != [] && Sorted(e) && e[0].off == 0 && e[|e| - 1].off < r.hi && e[|e| - 1].tag == r.tag && Apart(e)
  {
    if last.off == r.lo && last.tag == r.tag {
    } else if last.off == r.lo {
      SortedAppend(p, Item(r.lo, r.tag));
      ApartAppend(p, Item(r.lo, r.tag));
    } else {
      var free := Item(last.off, FreeSpace);
      SortedAppend(p, free);
      ApartAppend(p, free);
      SortedAppend(p + [free], Item(r.lo, r.tag));
      ApartAppend(p + [free], Item(r.lo, r.tag));
    }
  }

  /** The ranges so far, when one more follows. */
  lemma LaidNext(rs: seq<Range>, r: Range)
    requires rs != [] && Laid(rs + [r])
    ensures Laid(rs) && 0 < rs[|rs| - 1].hi <= r.lo < r.hi && rs[|rs| - 1].tag != FreeSpace && r.tag != FreeSpace
    ensures forall i :: 0 <= i < |rs| ==> rs[i].hi <= rs[|rs| - 1].hi
  {
    var all := rs + [r];
    assert forall i :: 0 <= i < |rs| ==> all[i] == rs[i];
    assert all[|rs|] == r;
    forall i | 0 <= i < |rs| - 1 ensures rs[i].hi <= rs[|rs| - 1].hi {
      assert all[i].hi <= all[|rs| - 1].lo;
    }
  }

  /** A map is the items up to the last segment, and the item that ends it. */
  lemma MapsFrom(e: seq<Item>, rs: seq<Range>, r: Range)
    requires e != [] && Sorted(e) && e[0].off == 0 && e[|e| - 1].off < r.hi && e[|e| - 1].tag == r.tag && Apart(e)
    requires var d := e + [Item(r.hi, r.tag)];
             forall x {:trigger TagAt(d, x)} :: 0 <= x < r.hi ==> TagAt(d, x) == RangeTag(rs + [r], x)
    ensures Maps(e + [Item(r.hi, r.tag)], rs + [r])
  {
    var d := e + [Item(r.hi, r.tag)];
    SortedAppend(e, Item(r.hi, r.tag));
    assert d[..|d| - 1] == e && (rs + [r])[|rs|] == r;
  }

  lemma SortedParts(d: seq<Item>)
    requires Sorted(d) && |d| >= 2
    ensures Sorted(d[..|d| - 1]) && d[|d| - 2].off < d[|d| - 1].off && d == d[..|d| - 1] + [d[|d| - 1]]
  {}

  lemma MapsNext(d: seq<Item>, rs: seq<Range>, r: Range)
    requires rs != [] && Laid(rs + [r]) && Maps(d, rs)
    ensures Added(d, r).Some? && Maps(Added(d, r).value, rs + [r])
  {
    var p, last := d[..|d| - 1], d[|d| - 1];
    LaidNext(rs, r);
    SortedParts(d);
    assert p[|p| - 1] == d[|d| - 2] && p[0] == d[0];
    AddedIs(p, last, r);
    ShapeNext(p, last, r);
    var e := Before(p, last, r);
    var d' := e + [Item(r.hi, r.tag)];
    forall x | 0 <= x < r.hi ensures TagAt(d', x) == RangeTag(rs + [r], x) {
      TagsNext(p, last, r, x);
      RangeTagNext(rs, r, last.off, x);
      if x < last.off { assert TagAt(d, x) == RangeTag(rs, x); }
    }
    MapsFrom(e, rs, r);
  }

  lemma {:induction false} AddedAllMaps(rs: seq<Range>)
    requires Laid(rs)
    ensures AddedAll(rs).Some? && Maps(AddedAll(rs).value, rs)
  {
    var before, r := rs[..|rs| - 1], rs[|rs| - 1];
    AddedAllLast(rs, before, r);
    if before == [] {
      MapsFirst(r);
    } else {
      LaidNext(before, r);
      AddedAllMaps(before);
      MapsNext(AddedAll(before).value, before, r);
    }
  }

  lemma AddedAllLast(rs: seq<Range>, before: seq<Range>, r: Range)
    requires rs != [] && before == rs[..|rs| - 1] && r == rs[|rs| - 1]
    ensures rs == before + [r] && (before == [] ==> rs == [r] && AddedAll(rs) == Added([], r))
    ensures AddedAll(before).Some? ==> AddedAll(rs) == Added(AddedAll(before).value, r)
  {}

  lemma {:induction false} ClosedMaps(d: seq<Item>, rs: seq<Range>)
    requires Laid(rs) && Maps(d, rs)
    ensures var m := Closed(d);
            && Sorted(m) && |m| == |d| && m[0].off == 0 && m[|m| - 1] == Item(rs[|rs| - 1].hi, EndOfFile)
            && Apart(m)
            && (forall x :: 0 <= x < rs[|rs| - 1].hi ==> TagAt(m, x) == RangeTag(rs, x))
            && (forall x :: x >= rs[|rs| - 1].hi ==> TagAt(m, x) == EndOfFile)
  {
    var n := |d| - 1;
    var m := d[..n] + [Item(d[n].off, EndOfFile)];
    assert Closed(d) == m && d == d[..n] + [d[n]];
    forall x: nat ensures TagAt(m, x) == if x >= d[n].off then EndOfFile else TagAt(d, x) {
      TagAtAppend(d[..n], d[n].off, EndOfFile, x);
      TagAtAppend(d[..n], d[n].off, d[n].tag, x);
    }
  }

  class ObjMapping {
    var reverseMapping: seq<Item>

    constructor ()
      ensures reverseMapping == []
    {
      reverseMapping := [];
    }

    method AddRange(r: Range) returns (ok: bool)
      modifies this
      ensures ok <==> Added(old(reverseMapping), r).Some?
      ensures reverseMapping == if ok then Added(old(reverseMapping), r).value else old(reverseMapping)
    {
      if r.lo != 0 {
        if reverseMapping == [] {
          return false;
        }
        var last := reverseMapping[|reverseMapping| - 1];
        if last.off == r.lo && last.tag == r.tag {
          reverseMapping := reverseMapping[..|reverseMapping| - 1];
        } else if last.off == r.lo {
          reverseMapping := Put(reverseMapping, r.lo, r.tag);
        } else {
          reverseMapping := Put(reverseMapping, last.off, FreeSpace);
          reverseMapping := Put(reverseMapping, r.lo, r.tag);
        }
        reverseMapping := Put(reverseMapping, r.hi, r.tag);
      } else {
        reverseMapping := Put(reverseMapping, r.lo, r.tag);
        reverseMapping := Put(reverseMapping, r.hi, r.tag);
      }
      ok := true;
    }

    /** build, from the sorted ranges; false where it raises an error. */
    method Build(rs: seq<Range>) returns (ok: bool)
      requires reverseMapping == []
      modifies this
      ensures ok <==> rs != [] && AddedAll(rs).Some? && AddedAll(rs).value != []
      ensures ok ==> reverseMapping == Closed(AddedAll(rs).value)
    {
      for i := 0 to |rs|
        invariant AddedAll(rs[..i]) == Some(reverseMapping)
      {
        assert rs[..i + 1][..i] == rs[..i];
        ok := AddRange(rs[i]);
        if !ok {
          NeverAdded(rs, i + 1);
          return;
        }
      }
      assert rs[..|rs|] == rs;
      if reverseMapping == [] {
        return false;
      }
      reverseMapping := Put(reverseMapping, reverseMapping[|reverseMapping| - 1].off, EndOfFile);
      ok := true;
    }

    /** query: the tags of the client writes, given by offset and length, that a server write belongs to. */
    method Query(writes: seq<(nat, nat)>) returns (tags: set<Tag>)
      requires reverseMapping != [] && reverseMapping[0].off == 0
      ensures forall t :: t in tags <==>
                exists i :: 0 <= i < |writes| && t in Queried(reverseMapping, writes[i].0, writes[i].1)
    {
      tags := {};
      for i := 0 to |writes|
        invariant forall t :: t in tags <==>
                    exists k :: 0 <= k < i && t in Queried(reverseMapping, writes[k].0, writes[k].1)
      {
        var found := QueryOne(writes[i].0, writes[i].1);
        tags := tags + found;
      }
    }

    method QueryOne(offset: nat, length: nat) returns (tags: set<Tag>)
      requires reverseMapping != [] && reverseMapping[0].off == 0
      ensures tags == Queried(reverseMapping, offset, length)
    {
      var startPos := CountLe(reverseMapping, offset) - 1;
      var endPos := CountLt(reverseMapping, offset + length) - 1;
      if startPos == endPos && 0 <= startPos {
        tags := {reverseMapping[startPos].tag};
      } else {
        tags := Tags(Slice(reverseMapping, startPos, endPos));
      }
    }
  }

  lemma {:induction false} NeverAdded(rs: seq<Range>, n: nat)
    requires n <= |rs| && AddedAll(rs[..n]).None?
    ensures AddedAll(rs).None?
    decreases |rs|
  {
    if n < |rs| {
      assert rs[..|rs| - 1][..n] == rs[..n];
      NeverAdded(rs[..|rs| - 1], n);
    } else {
      assert rs[..n] == rs;
    }
  }

  /** Building raises an error exactly when the first range does not start the file. */
  lemma {:induction false} AddedAllFails(rs: seq<Range>)
    ensures AddedAll(rs).Some? <==> rs == [] || rs[0].lo == 0
    ensures AddedAll(rs).Some? && rs != [] ==> AddedAll(rs).value != []
  {
    if rs != [] { AddedAllFails(rs[..|rs| - 1]); }
  }

  /** The tag of an offset is that of the range that holds it, and FREE_SPACE between the ranges. */
  lemma {:induction false} RangeTagSays(rs: seq<Range>, x: nat)
    requires forall i, j {:trigger rs[i].hi, rs[j].lo} :: 0 <= i < j < |rs| ==> rs[i].hi <= rs[j].lo
    ensures forall i :: 0 <= i < |rs| && rs[i].lo <= x < rs[i].hi ==> RangeTag(rs, x) == rs[i].tag
    ensures (forall i :: 0 <= i < |rs| ==> !(rs[i].lo <= x < rs[i].hi)) ==> RangeTag(rs, x) == FreeSpace
  {
    if rs != [] {
      var front := rs[..|rs| - 1];
      forall i, j | 0 <= i < j < |front| ensures front[i].hi <= front[j].lo {
        assert front[i] == rs[i] && front[j] == rs[j];
      }
      RangeTagSays(front, x);
      forall i | 0 <= i < |rs| && rs[i].lo <= x < rs[i].hi ensures RangeTag(rs, x) == rs[i].tag {
        assert i < |front| ==> front[i] == rs[i];
      }
    }
  }

  /** The tag of an offset is that of the last item at or before it, which is also the segment it lies in. */
  lemma TagAtSays(d: seq<Item>, x: nat, i: nat)
    requires forall i, j :: 0 <= i < j < |d| ==> d[i].off < d[j].off
    requires i < |d| && d[i].off <= x && (i + 1 < |d| ==> x < d[i + 1].off)
    ensures TagAt(d, x) == d[i].tag && Segment(d, x) == i
  {
    CountIs(d, x);
  }

  // ------------------------------------------------------------------------ queries

  /** bisect_right */
  function CountLe(d: seq<Item>, x: nat): (r: nat)
    ensures r <= |d|
  {
    if d == [] then 0 else CountLe(d[..|d| - 1], x) + if d[|d| - 1].off <= x then 1 else 0
  }

  /** bisect_left */
  function CountLt(d: seq<Item>, x: nat): (r: nat)
    ensures r <= |d|
  {
    if d == [] then 0 else CountLt(d[..|d| - 1], x) + if d[|d| - 1].off < x then 1 else 0
  }

  /** A slice with a bound that may be -1 for the last item. */
  function Slice(d: seq<Item>, lo: int, hi: int): seq<Item> {
    var h := if hi < 0 then hi + |d| else hi;
    if 0 <= lo <= h <= |d| then d[lo..h] else []
  }

  function Tags(d: seq<Item>): set<Tag> { set it | it in d :: it.tag }

  /** The tags that query collects for one write. */
  function Queried(d: seq<Item>, start: nat, length: nat): set<Tag>
    requires d != [] && d[0].off == 0
  {
    var lo, hi := CountLe(d, start) - 1, CountLt(d, start + length) - 1;
    if lo == hi && 0 <= lo then {d[lo].tag} else Tags(Slice(d, lo, hi))
  }

  /** The tags of the segments that a write touches. */
  function Touched(d: seq<Item>, start: nat, length: nat): set<Tag> {
    set x | start <= x < start + length :: TagAt(d, x)
  }

  lemma {:induction false} CountIs(d: seq<Item>, x: nat)
    requires Sorted(d)
    ensures forall i {:trigger d[i]} :: 0 <= i < |d| ==> (d[i].off <= x <==> i < CountLe(d, x))
    ensures CountLe(d, x) > 0 ==> TagAt(d, x) == d[CountLe(d, x) - 1].tag
    ensures CountLt(d, x + 1) == CountLe(d, x)
  {
    if d != [] {
      var p := d[..|d| - 1];
      CountIs(p, x);
      assert forall i :: 0 <= i < |p| ==> p[i] == d[i];
      if d[|d| - 1].off <= x { AllBelow(p, x); }
    }
  }

  lemma {:induction false} AllBelow(d: seq<Item>, x: nat)
    requires forall i :: 0 <= i < |d| ==> d[i].off <= x
    ensures CountLe(d, x) == |d|
  {
    if d != [] { AllBelow(d[..|d| - 1], x); }
  }

  /** Where the segments lie that an offset range touches. */
  lemma TouchedSegments(d: seq<Item>, a: nat, b: nat, t: Tag)
    requires Sorted(d) && d != [] && d[0].off == 0 && a <= b
    ensures 0 < CountLe(d, a) <= CountLe(d, b)
    ensures (exists x :: a <= x <= b && TagAt(d, x) == t) <==>
            exists i :: CountLe(d, a) - 1 <= i < CountLe(d, b) && d[i].tag == t
  {
    SegmentBetween(d, a, b, b);
    if x :| a <= x <= b && TagAt(d, x) == t {
      CountIs(d, x);
      SegmentBetween(d, a, x, b);
      assert d[CountLe(d, x) - 1].tag == t;
    }
    if i :| CountLe(d, a) - 1 <= i < CountLe(d, b) && d[i].tag == t {
      FirstOfSegment(d, a, b, i);
    }
  }

  lemma FirstOfSegment(d: seq<Item>, a: nat, b: nat, i: nat)
    requires Sorted(d) && d != [] && d[0].off == 0 && a <= b && CountLe(d, a) - 1 <= i < CountLe(d, b)
    ensures exists x :: a <= x <= b && TagAt(d, x) == d[i].tag
  {
    CountIs(d, a);
    CountIs(d, b);
    var x := if d[i].off < a then a else d[i].off;
    CountIs(d, x);
    assert d[i].off <= x && (i + 1 < |d| ==> d[i + 1].off > x);
    assert TagAt(d, x) == d[i].tag;
  }

  lemma TagsOf(d: seq<Item>, lo: nat, hi: nat, t: Tag)
    requires lo <= hi <= |d|
    ensures t in Tags(d[lo..hi]) <==> exists i :: lo <= i < hi && d[i].tag == t
  {
    if i :| lo <= i < hi && d[i].tag == t { assert d[lo..hi][i - lo] == d[i]; }
  }

  /** The segment that an offset lies in. */
  function Segment(d: seq<Item>, x: nat): int { CountLe(d, x) - 1 }

  /** A write that ends in the segment it starts in yields its tag; any other yields the tags of all segments it
      touches, except that the last of these segments is left out. */
  lemma QueryOmitsLast(d: seq<Item>, start: nat, length: nat, lo: int, hi: int)
    requires Sorted(d) && d != [] && d[0].off == 0 && length > 0
    requires lo == Segment(d, start) && hi == Segment(d, start + length - 1)
    ensures 0 <= lo <= hi < |d|
    ensures Touched(d, start, length) == Tags(d[lo..hi + 1])
    ensures Queried(d, start, length) == if lo == hi then {d[lo].tag} else Tags(d[lo..hi])
  {
    var end := start + length - 1;
    SegmentBetween(d, start, end, end);
    forall t ensures t in Touched(d, start, length) <==> t in Tags(d[lo..hi + 1]) {
      TouchedSegments(d, start, end, t);
      TouchedIs(d, start, length, t);
      TagsOf(d, lo, hi + 1, t);
    }
    QueriedIs(d, start, length, lo, hi);
  }

  lemma QueriedIs(d: seq<Item>, start: nat, length: nat, lo: int, hi: int)
    requires Sorted(d) && d != [] && d[0].off == 0 && length > 0
    requires lo == Segment(d, start) && hi == Segment(d, start + length - 1) && 0 <= lo <= hi < |d|
    ensures Queried(d, start, length) == if lo == hi then {d[lo].tag} else Tags(d[lo..hi])
  {
    CountIs(d, start + length - 1);
  }

  /** The answer for a write, item by item: from the one it starts in up to the one that holds its last byte,
      which is left out unless the write starts in it. */
  lemma QueriedSays(d: seq<Item>, start: nat, length: nat, lo: nat, hi: nat, t: Tag)
    requires forall i, j :: 0 <= i < j < |d| ==> d[i].off < d[j].off
    requires d != [] && d[0].off == 0 && length > 0 && lo <= hi < |d|
    requires d[lo].off <= start && (lo + 1 < |d| ==> start < d[lo + 1].off)
    requires d[hi].off <= start + length - 1 && (hi + 1 < |d| ==> start + length - 1 < d[hi + 1].off)
    ensures t in Queried(d, start, length) <==>
            if lo == hi then t == d[lo].tag else exists i :: lo <= i < hi && d[i].tag == t
  {
    TagAtSays(d, start, lo);
    TagAtSays(d, start + length - 1, hi);
    QueryOmitsLast(d, start, length, lo, hi);
    TagsOf(d, lo, hi, t);
  }

  /** A write of nothing yields the tag of the item it lies in, but nothing at the start of one, and at the start
      of the file the tags of all items but the last. */
  lemma EmptyQueried(d: seq<Item>, start: nat, lo: nat, t: Tag)
    requires forall i, j :: 0 <= i < j < |d| ==> d[i].off < d[j].off
    requires d != [] && d[0].off == 0 && lo < |d| && d[lo].off <= start && (lo + 1 < |d| ==> start < d[lo + 1].off)
    ensures t in Queried(d, start, 0) <==>
            if start == 0 then exists i :: 0 <= i < |d| - 1 && d[i].tag == t
            else d[lo].off < start && t == d[lo].tag
  {
    Counts(d, start, lo);
    if start == 0 { TagsOf(d, 0, |d| - 1, t); }
  }

  lemma Counts(d: seq<Item>, start: nat, lo: nat)
    requires Sorted(d) && lo < |d| && d[lo].off <= start && (lo + 1 < |d| ==> start < d[lo + 1].off)
    ensures CountLe(d, start) == lo + 1
    ensures CountLt(d, start) == if d[lo].off < start then lo + 1 else lo
  {
    CountIs(d, start);
    if start > 0 { CountIs(d, start - 1); } else { NoneBelow(d); }
  }

  lemma {:induction false} NoneBelow(d: seq<Item>)
    ensures CountLt(d, 0) == 0
  {
    if d != [] { NoneBelow(d[..|d| - 1]); }
  }

  lemma TouchedIs(d: seq<Item>, start: nat, length: nat, t: Tag)
    ensures t in Touched(d, start, length) <==> exists x :: start <= x <= start + length - 1 && TagAt(d, x) == t
  {
    if x: nat :| start <= x <= start + length - 1 && TagAt(d, x) == t {
      assert TagAt(d, x) in Touched(d, start, length);
    }
    if t in Touched(d, start, length) {
      var x: nat :| start <= x < start + length && TagAt(d, x) == t;
      assert start <= x <= start + length - 1;
    }
  }

  lemma SegmentBetween(d: seq<Item>, a: nat, x: nat, b: nat)
    requires Sorted(d) && a <= x <= b && d != [] && d[0].off == 0
    ensures 0 < CountLe(d, a) <= CountLe(d, x) <= CountLe(d, b)
  {
    CountIs(d, a);
    CountIs(d, x);
    CountIs(d, b);
    assert d[0].off <= a && d[CountLe(d, a) - 1].off <= x && d[CountLe(d, x) - 1].off <= b;
  }

  /** So a query misses nothing exactly when the write stays in one segment or the tag of the last one occurs
      before. */
  lemma QueryComplete(d: seq<Item>, start: nat, length: nat, lo: int, hi: int)
    requires Sorted(d) && d != [] && d[0].off == 0 && length > 0
    requires lo == Segment(d, start) && hi == Segment(d, start + length - 1)
    ensures 0 <= lo <= hi < |d|
    ensures Queried(d, start, length) <= Touched(d, start, length)
    ensures Queried(d, start, length) == Touched(d, start, length) <==> lo == hi || d[hi].tag in Tags(d[lo..hi])
  {
    QueryOmitsLast(d, start, length, lo, hi);
    TagsMore(d, lo, hi);
    LeftOut(Tags(d[lo..hi]), d[hi].tag, lo == hi, Queried(d, start, length), Touched(d, start, length));
  }

  lemma LeftOut(before: set<Tag>, last: Tag, one: bool, queried: set<Tag>, touched: set<Tag>)
    requires touched == before + {last} && (one ==> before == {}) && queried == if one then {last} else before
    ensures queried <= touched && (queried == touched <==> one || last in before)
  {}

  lemma TagsMore(d: seq<Item>, lo: nat, hi: nat)
    requires lo <= hi < |d|
    ensures Tags(d[lo..hi + 1]) == Tags(d[lo..hi]) + {d[hi].tag}
    ensures lo == hi ==> Tags(d[lo..hi]) == {}
  {
    assert d[lo..hi + 1] == d[lo..hi] + [d[hi]];
  }

  /** Two adjacent objects, and a write over both of them. */
  const TWO_OBJECTS := [Range(0, 4, Superblock), Range(4, 8, GlobalHeap)]
  const TWO_SEGMENTS := [Item(0, Superblock), Item(4, GlobalHeap), Item(8, EndOfFile)]

  lemma TwoObjectsMap()
    ensures Laid(TWO_OBJECTS) && AddedAll(TWO_OBJECTS).Some?
    ensures Closed(AddedAll(TWO_OBJECTS).value) == TWO_SEGMENTS
  {
    TwoMerged(TWO_OBJECTS[0], TWO_OBJECTS[1]);
    assert TWO_OBJECTS == [TWO_OBJECTS[0], TWO_OBJECTS[1]];
    PutOver([Item(0, Superblock), Item(4, GlobalHeap)], Item(8, GlobalHeap), EndOfFile);
  }

  /** The map of two adjacent objects. */
  lemma TwoMerged(a: Range, b: Range)
    requires a.lo == 0 < a.hi == b.lo < b.hi && a.tag != b.tag
    ensures AddedAll([a, b]) == Some([Item(0, a.tag), Item(b.lo, b.tag)] + [Item(b.hi, b.tag)])
  {
    var first, last := [Item(0, a.tag)], Item(a.hi, a.tag);
    PutBehind([], 0, a.tag);
    PutBehind(first, a.hi, a.tag);
    assert [] + first == first && [a][..0] == [];
    assert AddedAll([a][..0]) == Some([]);
    assert AddedAll([a]) == Added([], a) == Some(first + [last]);
    assert [a, b][..1] == [a];
    SortedAppend(first, last);
    AddedIs(first, last, b);
    assert first + [Item(b.lo, b.tag)] == [Item(0, a.tag), Item(b.lo, b.tag)];
  }

  /** The query for the write does not mention the second object, although the write touches it. */
  lemma LastObjectMissed()
    ensures Laid(TWO_OBJECTS) && AddedAll(TWO_OBJECTS).Some? && Closed(AddedAll(TWO_OBJECTS).value) == TWO_SEGMENTS
    ensures Queried(TWO_SEGMENTS, 0, 8) == {Superblock} && GlobalHeap in Touched(TWO_SEGMENTS, 0, 8)
  {
    TwoObjectsMap();
    TwoSegmentsCount();
    QueryOmitsLast(TWO_SEGMENTS, 0, 8, 0, 1);
    assert TWO_SEGMENTS[0..1] == [TWO_SEGMENTS[0]];
    assert TWO_SEGMENTS[1] in TWO_SEGMENTS[0..2];
  }

  lemma TwoSegmentsCount()
    ensures Sorted(TWO_SEGMENTS) && Segment(TWO_SEGMENTS, 0) == 0 && Segment(TWO_SEGMENTS, 7) == 1
  {
    var d := TWO_SEGMENTS;
    CountIs(d, 0);
    CountIs(d, 7);
    assert d[0].off == 0 && d[1].off == 4 && d[2].off == 8;
  }
}
