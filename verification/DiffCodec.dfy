/** Peephole compression: a record may be stored as its differences from one of the three before it. */
module DiffCodec {
  import opened Bits
  import opened Options
  import opened RecordCodec

  const RECORD_WINDOW_SIZE: nat := 3
  const DIFF_MARK: Byte := 0x80
  const STATUS_ARGS: nat := 7

  // ------------------------------------------------------------------ one record

  function Flags(old0: seq<Option<Str>>, new0: seq<Option<Str>>): (r: seq<bool>)
    requires |old0| == |new0|
    ensures |r| == |new0| && forall j :: 0 <= j < |r| ==> r[j] == (old0[j] != new0[j])
  {
    seq(|new0|, j requires 0 <= j < |new0| => old0[j] != new0[j])
  }

  /** status | diff_bits[i], where diff_bits[i] has bits i and 7. */
  function AddBit(status: Byte, i: nat): Byte
    requires i < STATUS_ARGS
  {
    assert Pow2(8) == 256;
    SetBitBound(status, i, 8);
    SetBitBound(SetBit(status, i), 7, 8);
    SetBit(SetBit(status, i), 7)
  }

  /** The status byte: the mark, and one bit for each of the first seven arguments that is flagged. */
  function StatusOf(flags: seq<bool>): Byte {
    if flags == [] then DIFF_MARK
    else
      var n := |flags| - 1;
      var s := StatusOf(flags[..n]);
      if flags[n] && n < STATUS_ARGS then AddBit(s, n) else s
  }

  lemma {:induction false} StatusBits(flags: seq<bool>, j: nat)
    ensures j < STATUS_ARGS ==> (HasBit(StatusOf(flags), j) <==> j < |flags| && flags[j])
    ensures HasBit(StatusOf(flags), 7)
  {
    if flags == [] {
      MarkBits(j);
    } else {
      var n := |flags| - 1;
      var s := StatusOf(flags[..n]);
      StatusBits(flags[..n], j);
      SetBitHas(s, n, j);
      SetBitHas(SetBit(s, n), 7, j);
      SetBitHas(SetBit(s, n), 7, 7);
    }
  }

  lemma MarkBits(j: nat)
    ensures HasBit(DIFF_MARK, 7) && (j < STATUS_ARGS ==> !HasBit(DIFF_MARK, j))
  {
    assert HasBit(128, 7) by { assert HasBit(8, 3); }
    assert j == 0 || j == 1 || j == 2 || j == 3 || j == 4 || j == 5 || j == 6 || j >= 7;
    assert !HasBit(8, 0) && !HasBit(8, 1) && !HasBit(8, 2);
  }

  lemma {:induction false} ZeroHasNone(j: nat)
    ensures !HasBit(0, j)
  {
    if j > 0 { ZeroHasNone(j - 1); }
  }

  /** The flagged elements, in order. */
  function Picked<T>(flags: seq<bool>, xs: seq<T>): (r: seq<T>)
    requires |flags| == |xs|
    ensures |r| <= |xs| && forall x :: x in r ==> x in xs
  {
    if xs == [] then []
    else
      var n := |xs| - 1;
      Picked(flags[..n], xs[..n]) + if flags[n] then [xs[n]] else []
  }

  datatype Diff<T> = Diff(status: Byte, args: seq<T>)

  predicate AllStrings(args: seq<Option<Str>>) { forall i :: 0 <= i < |args| ==> args[i].Some? }

  /** get_diff_record: None stands for the impossible argument count it returns when the counts differ. Arguments that
      are compared must be strings. */
  method GetDiffRecord(old0: seq<Option<Str>>, new0: seq<Option<Str>>) returns (d: Option<Diff<Option<Str>>>)
    requires |old0| == |new0| ==> AllStrings(old0) && AllStrings(new0)
    ensures d == if |old0| != |new0| then None
                 else var flags := Flags(old0, new0); Some(Diff(StatusOf(flags), Picked(flags, new0)))
  {
    if |old0| != |new0| {
      return None;
    }
    ghost var flags := Flags(old0, new0);
    var status, args := DIFF_MARK, [];
    for i := 0 to |old0|
      invariant status == StatusOf(flags[..i]) && args == Picked(flags[..i], new0[..i])
    {
      assert flags[..i + 1][..i] == flags[..i] && new0[..i + 1][..i] == new0[..i];
      if old0[i] != new0[i] {
        args := args + [new0[i]];
        if i < STATUS_ARGS {
          status := AddBit(status, i);
        }
      }
    }
    assert flags[..|old0|] == flags && new0[..|old0|] == new0;
    d := Some(Diff(status, args));
  }

  /** Replaces the flagged ones of the first n arguments, taking the replacements in order. None when they run out, or
      when an argument is to be copied that was never filled. */
  function Patched(status: Byte, ref: seq<Option<Str>>, diff: seq<Option<Str>>, n: nat): Option<(seq<Option<Str>>, nat)>
    requires n <= |ref|
  {
    if n == 0 then Some(([], 0))
    else
      var before := Patched(status, ref, diff, n - 1);
      if before.None? then None else PatchedNext(status, ref, diff, n - 1, before.value.0, before.value.1)
  }

  /** Argument j, when k replacements have been used. */
  function PatchedNext(status: Byte, ref: seq<Option<Str>>, diff: seq<Option<Str>>, j: nat, args: seq<Option<Str>>,
                       k: nat)
    : Option<(seq<Option<Str>>, nat)>
    requires j < |ref|
  {
    if j < STATUS_ARGS && HasBit(status, j) then if k < |diff| then Some((args + [diff[k]], k + 1)) else None
    else if ref[j].Some? then Some((args + [ref[j]], k)) else None
  }

  /** What patching yields: the flagged ones of the first seven arguments are new. */
  function Mixed<T>(flags: seq<bool>, ref: seq<T>, xs: seq<T>): (r: seq<T>)
    requires |flags| == |ref| == |xs|
    ensures |r| == |xs|
    ensures forall j :: 0 <= j < |xs| ==> r[j] == if flags[j] && j < STATUS_ARGS then xs[j] else ref[j]
  {
    seq(|xs|, j requires 0 <= j < |xs| => if flags[j] && j < STATUS_ARGS then xs[j] else ref[j])
  }

  lemma {:induction false} PickedPrefix<T>(flags: seq<bool>, xs: seq<T>, n: nat)
    requires |flags| == |xs| && n <= |xs|
    ensures Picked(flags[..n], xs[..n]) <= Picked(flags, xs)
    ensures n < |xs| && flags[n] ==>
              |Picked(flags[..n], xs[..n])| < |Picked(flags, xs)|
              && Picked(flags, xs)[|Picked(flags[..n], xs[..n])|] == xs[n]
    decreases |xs| - n
  {
    if n < |xs| {
      PickedPrefix(flags, xs, n + 1);
      assert flags[..n + 1][..n] == flags[..n] && xs[..n + 1][..n] == xs[..n];
    } else {
      assert flags[..n] == flags && xs[..n] == xs;
    }
  }

  /** How many replacements the first n arguments use. */
  function Used(flags: seq<bool>, xs: seq<Option<Str>>, n: nat): nat
    requires |flags| == |xs| && n <= |xs|
  {
    var t := if n < STATUS_ARGS then n else STATUS_ARGS;
    |Picked(flags[..t], xs[..t])|
  }

  lemma UsedNext(flags: seq<bool>, xs: seq<Option<Str>>, j: nat)
    requires |flags| == |xs| && j < |xs|
    ensures Used(flags, xs, j + 1) == Used(flags, xs, j) + if j < STATUS_ARGS && flags[j] then 1 else 0
    ensures j < STATUS_ARGS && flags[j] ==>
              Used(flags, xs, j) < |Picked(flags, xs)| && Picked(flags, xs)[Used(flags, xs, j)] == xs[j]
  {
    if j < STATUS_ARGS {
      PickedPrefix(flags, xs, j);
      assert flags[..j + 1][..j] == flags[..j] && xs[..j + 1][..j] == xs[..j];
    }
  }

  /** Everything that is copied from the reference is filled. */
  ghost predicate Copyable(flags: seq<bool>, ref: seq<Option<Str>>) {
    |flags| == |ref| && forall j :: 0 <= j < |ref| && (!flags[j] || j >= STATUS_ARGS) ==> ref[j].Some?
  }

  lemma {:induction false} PatchedIsMixed(flags: seq<bool>, ref: seq<Option<Str>>, xs: seq<Option<Str>>, n: nat)
    requires |flags| == |xs| && Copyable(flags, ref) && n <= |xs|
    ensures Patched(StatusOf(flags), ref, Picked(flags, xs), n) ==
            Some((Mixed(flags, ref, xs)[..n], Used(flags, xs, n)))
  {
    if n > 0 {
      var j, m := n - 1, Mixed(flags, ref, xs);
      PatchedIsMixed(flags, ref, xs, j);
      StatusBits(flags, j);
      UsedNext(flags, xs, j);
      assert m[..n] == m[..j] + [m[j]];
    }
  }

  /** Decoding a difference yields the record exactly when nothing changed beyond the seventh argument. */
  lemma DiffRestores(old0: seq<Option<Str>>, new0: seq<Option<Str>>)
    requires |old0| == |new0| && AllStrings(old0) && AllStrings(new0)
    ensures var flags := Flags(old0, new0);
            var back := Patched(StatusOf(flags), old0, Picked(flags, new0), |old0|);
            back.Some? && (back.value.0 == new0 <==> forall j :: STATUS_ARGS <= j < |new0| ==> old0[j] == new0[j])
  {
    var flags := Flags(old0, new0);
    PatchedIsMixed(flags, old0, new0, |old0|);
    var m := Mixed(flags, old0, new0);
    assert m[..|old0|] == m;
    if m == new0 {
      forall j | STATUS_ARGS <= j < |new0| ensures old0[j] == new0[j] { assert m[j] == new0[j]; }
    }
  }

  // ----------------------------------------------------------------- the whole stream

  /** The record i, given the records before it as restored; None where the reader would run out of bounds or
      copy an argument that was never filled. */
  function RestoreOne(e: Entry, before: seq<Entry>): Option<Entry> {
    if e.status == 0 then Some(e)
    else if |before| - 1 - e.funcId < 0 then None
    else
      var ref := before[|before| - 1 - e.funcId];
      var args := Patched(e.status, ref.args, e.args, |ref.args|);
      if args.None? then None else Some(e.(funcId := ref.funcId, args := args.value.0))
  }

  /** The first n records as restored. */
  function Restored(es: seq<Entry>, n: nat): (r: Option<seq<Entry>>)
    requires n <= |es|
    ensures r.Some? ==> |r.value| == n
  {
    if n == 0 then Some([])
    else
      var before := Restored(es, n - 1);
      if before.None? then None
      else
        var e := RestoreOne(es[n - 1], before.value);
        if e.None? then None else Some(before.value + [e.value])
  }

  /** The arguments of one record, put together from its own and those of its reference. */
  method Decompress(e: Entry, ref: Entry) returns (args: Option<seq<Option<Str>>>)
    ensures args == var p := Patched(e.status, ref.args, e.args, |ref.args|); if p.None? then None else Some(p.value.0)
  {
    var k, done := 0, [];
    for j := 0 to |ref.args|
      invariant Patched(e.status, ref.args, e.args, j) == Some((done, k))
    {
      if j < STATUS_ARGS && HasBit(e.status, j) {
        if k >= |e.args| {
          NeverPatched(e.status, ref.args, e.args, j + 1, |ref.args|);
          return None;
        }
        done := done + [e.args[k]];
        k := k + 1;
      } else {
        if ref.args[j].None? {
          NeverPatched(e.status, ref.args, e.args, j + 1, |ref.args|);
          return None;
        }
        done := done + [ref.args[j]];
      }
    }
    args := Some(done);
  }

  lemma {:induction false} NeverPatched(status: Byte, ref: seq<Option<Str>>, diff: seq<Option<Str>>, n: nat, m: nat)
    requires n <= m <= |ref| && Patched(status, ref, diff, n).None?
    ensures Patched(status, ref, diff, m).None?
  {
    if n < m { NeverPatched(status, ref, diff, n, m - 1); }
  }

  lemma {:induction false} NeverRestored(es: seq<Entry>, n: nat, m: nat)
    requires n <= m <= |es| && Restored(es, n).None?
    ensures Restored(es, m).None?
  {
    if n < m { NeverRestored(es, n, m - 1); }
  }

  /** decompress_records: restores the records in place; false where it would run out of bounds or copy an argument
      that was never filled. */
  method DecompressRecords(records: array<Entry>) returns (ok: bool)
    modifies records
    ensures ok <==> Restored(old(records[..]), records.Length).Some?
    ensures ok ==> records[..] == Restored(old(records[..]), records.Length).value
  {
    ghost var es := records[..];
    for i := 0 to records.Length
      invariant Restored(es, i) == Some(records[..i])
      invariant records[i..] == es[i..]
    {
      var r := records[i];
      assert r == records[i..][0] == es[i];
      if r.status != 0 {
        var refId := i - 1 - r.funcId;
        if refId < 0 {
          NeverRestored(es, i + 1, |es|);
          return false;
        }
        var ref := records[refId];
        assert ref == records[..i][refId];
        var args := Decompress(r, ref);
        if args.None? {
          NeverRestored(es, i + 1, |es|);
          return false;
        }
        records[i] := r.(funcId := ref.funcId, args := args.value);
      }
      assert records[..i + 1] == records[..i] + [records[i]];
      assert records[i + 1..] == es[i + 1..] by { assert es[i..][1..] == es[i + 1..]; }
    }
    assert records[..records.Length] == records[..];
    ok := true;
  }

  /** How a record may be stored after the given ones: raw, or as its differences from one of the previous three with
      the same function and argument count, the arguments that are not stored being those of the reference. */
  ghost predicate StoredAs(before: seq<Entry>, full: Entry, e: Entry) {
    || e == full.(status := 0)
    || exists w: Byte, flags: seq<bool> :: FlaggedAs(before, full, e, w, flags)
  }

  ghost predicate FlaggedAs(before: seq<Entry>, full: Entry, e: Entry, w: Byte, flags: seq<bool>) {
    && w < RECORD_WINDOW_SIZE && w < |before| && |flags| == |full.args| <= STATUS_ARGS
    && var ref := before[|before| - 1 - w];
    && ref.funcId == full.funcId && |ref.args| == |full.args|
    && (forall j :: 0 <= j < |flags| && !flags[j] ==> ref.args[j] == full.args[j] && ref.args[j].Some?)
    && e == full.(status := StatusOf(flags), funcId := w, args := Picked(flags, full.args))
  }

  lemma RestoreStored(before: seq<Entry>, restored: seq<Entry>, full: Entry, e: Entry)
    requires StoredAs(before, full, e) && SameRecords(restored, before)
    ensures RestoreOne(e, restored) == Some(full.(status := e.status))
  {
    if e != full.(status := 0) {
      var w: Byte, flags: seq<bool> :| FlaggedAs(before, full, e, w, flags);
      RestoreFlagged(before, restored, full, e, w, flags);
    }
  }

  lemma RestoreFlagged(before: seq<Entry>, restored: seq<Entry>, full: Entry, e: Entry, w: Byte, flags: seq<bool>)
    requires FlaggedAs(before, full, e, w, flags) && SameRecords(restored, before)
    ensures RestoreOne(e, restored) == Some(full.(status := e.status))
  {
    var ref := restored[|restored| - 1 - w];
    assert ref == before[|before| - 1 - w].(status := ref.status);
    StatusBits(flags, 0);
    ZeroHasNone(7);
    PatchedBack(flags, ref.args, full.args);
  }

  lemma PatchedBack(flags: seq<bool>, ref: seq<Option<Str>>, xs: seq<Option<Str>>)
    requires |flags| == |ref| == |xs| <= STATUS_ARGS && Copyable(flags, ref)
    requires forall j :: 0 <= j < |xs| && !flags[j] ==> ref[j] == xs[j]
    ensures Patched(StatusOf(flags), ref, Picked(flags, xs), |xs|).Some?
    ensures Patched(StatusOf(flags), ref, Picked(flags, xs), |xs|).value.0 == xs
  {
    PatchedIsMixed(flags, ref, xs, |xs|);
    assert Mixed(flags, ref, xs) == xs && xs[..|xs|] == xs;
  }

  /** Equal but for the status byte, which the reader leaves as stored. */
  ghost predicate SameRecords(a: seq<Entry>, b: seq<Entry>) {
    |a| == |b| && forall i :: 0 <= i < |a| ==> a[i] == b[i].(status := a[i].status)
  }

  /** Whatever choices are made, a stream stored record by record is restored exactly, but for the status bytes. */
  lemma {:induction false} StreamRestored(fulls: seq<Entry>, es: seq<Entry>, n: nat)
    requires |fulls| == |es| && n <= |es|
    requires forall i {:trigger es[i]} :: 0 <= i < |es| ==> StoredAs(fulls[..i], fulls[i], es[i])
    ensures Restored(es, n).Some? && SameRecords(Restored(es, n).value, fulls[..n])
  {
    if n > 0 {
      StreamRestored(fulls, es, n - 1);
      RestoreStored(fulls[..n - 1], Restored(es, n - 1).value, fulls[n - 1], es[n - 1]);
    }
  }
}
