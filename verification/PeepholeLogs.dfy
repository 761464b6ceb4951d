/** The logger that keeps the last three records in a window and may store the next one against any of them. */
module PeepholeLogs {
  import opened Bits
  import opened Options
  import opened Sequences
  import opened RecordCodec
  import opened RecordStreams
  import opened RecordTerms
  import opened DiffCodec

  const EMPTY: Record := Record(0, 0.0, 0.0, 0, [], 0)

  /** When a record in the window may serve as reference: same function, between one and seven arguments, and fewer
      differences than arguments. */
  predicate Candidate(ref: Record, r: Record) {
    && ref.funcId == r.funcId && 0 < |r.args| < 8 && 0 < |ref.args|
    && |ref.args| == |r.args| && AllStrings(ref.args) && AllStrings(r.args)
    && |Picked(Flags(ref.args, r.args), r.args)| < |r.args|
  }

  /** A record as it is after it was printed. */
  function Settled(r: Record): Record { r.(status := 0, args := Kept(r.args)) }

  function SettledAll(rs: seq<Record>): (r: seq<Record>)
    ensures |r| == |rs| && forall i :: 0 <= i < |rs| ==> r[i] == Settled(rs[i])
  {
    seq(|rs|, i requires 0 <= i < |rs| => Settled(rs[i]))
  }

  /** The arguments when just the flagged ones were printed. */
  function KeptWhere(flags: seq<bool>, args: seq<Option<Str>>): (r: seq<Option<Str>>)
    requires |flags| == |args|
    ensures |r| == |args| && forall i :: 0 <= i < |r| ==> r[i] == if flags[i] then Kept(args)[i] else args[i]
  {
    seq(|args|, i requires 0 <= i < |args| => if flags[i] then Kept(args)[i] else args[i])
  }

  /** A record as it is after what was stored for it was printed. */
  function AfterPrinting(r: Record, ref: Option<Record>): Record {
    if ref.Some? && Candidate(ref.value, r) then
      r.(status := 0, args := KeptWhere(Flags(ref.value.args, r.args), r.args))
    else Settled(r)
  }

  /** What one call stores, for a window slot that the search may or may not have come up with. */
  function StoredFor(r: Record, ref: Option<Record>, slot: Byte): Record {
    if ref.Some? && Candidate(ref.value, r) then
      var flags := Flags(ref.value.args, r.args);
      Record(StatusOf(flags), r.tstart, r.tend, slot, Picked(flags, r.args), r.res)
    else r.(status := 0)
  }

  /** The arguments that differ, in order. */
  function Differing(past: seq<Option<Str>>, args: seq<Option<Str>>): seq<Option<Str>>
    requires |past| == |args|
  {
    if args == [] then []
    else
      var n := |args| - 1;
      Differing(past[..n], args[..n]) + if past[n] != args[n] then [args[n]] else []
  }

  lemma {:induction false} PickedDiffer(past: seq<Option<Str>>, args: seq<Option<Str>>)
    requires |past| == |args|
    ensures Picked(Flags(past, args), args) == Differing(past, args)
  {
    if args != [] {
      var n := |args| - 1;
      PickedDiffer(past[..n], args[..n]);
      assert Flags(past, args)[..n] == Flags(past[..n], args[..n]);
    }
  }

  lemma {:induction false} FewerDiffer(past: seq<Option<Str>>, args: seq<Option<Str>>)
    requires |past| == |args|
    ensures |Differing(past, args)| <= |args|
    ensures |Differing(past, args)| < |args| <==> exists j :: 0 <= j < |args| && past[j] == args[j]
  {
    if args != [] {
      var n := |args| - 1;
      FewerDiffer(past[..n], args[..n]);
      if j :| 0 <= j < |args| && past[j] == args[j] { assert j < n ==> past[..n][j] == args[..n][j]; }
      if j :| 0 <= j < n && past[..n][j] == args[..n][j] { assert past[j] == args[j]; }
    }
  }

  /** What is stored: the record with status 0, or, against a record of the same function with as many arguments,
      fewer than eight of them and not all different, the slot in place of the function, the arguments that
      differ, in order, and a status of which bit 7 is set and bit j tells whether argument j differs. */
  lemma StoredSays(r: Record, ref: Record, slot: Byte)
    requires r.args != [] && AllStrings(r.args) && AllStrings(ref.args)
    ensures var s := StoredFor(r, Some(ref), slot);
            if ref.funcId == r.funcId && |ref.args| == |r.args| <= 7
               && exists j :: 0 <= j < |r.args| && ref.args[j] == r.args[j]
            then
              && s == Record(s.status, r.tstart, r.tend, slot, s.args, r.res)
              && s.status >= 128
              && (forall j :: 0 <= j < 7 ==>
                    (s.status / [1, 2, 4, 8, 16, 32, 64][j] % 2 == 1 <==> j < |r.args| && ref.args[j] != r.args[j]))
              && s.args == Differing(ref.args, r.args)
            else s == r.(status := 0)
  {
    if |ref.args| == |r.args| {
      PickedDiffer(ref.args, r.args);
      FewerDiffer(ref.args, r.args);
      StatusSays(Flags(ref.args, r.args));
    }
  }

  lemma StatusSays(flags: seq<bool>)
    ensures StatusOf(flags) >= 128
    ensures forall j :: 0 <= j < 7 ==>
              (StatusOf(flags) / [1, 2, 4, 8, 16, 32, 64][j] % 2 == 1 <==> j < |flags| && flags[j])
  {
    Marked(flags);
    forall j | 0 <= j < 7
      ensures StatusOf(flags) / [1, 2, 4, 8, 16, 32, 64][j] % 2 == 1 <==> j < |flags| && flags[j]
    {
      StatusBits(flags, j);
      BitSays(StatusOf(flags), j);
    }
  }

  lemma Marked(flags: seq<bool>)
    ensures StatusOf(flags) >= 128
  {
    StatusBits(flags, 0);
    BitSays(StatusOf(flags), 7);
  }

  lemma KeptTexts(args: seq<Option<Str>>)
    ensures Texts(Kept(args)) == Texts(args)
  {
    forall i | 0 <= i < |args| && args[i].Some?
      ensures Sanitised(Sanitised(args[i].value)) == Sanitised(args[i].value)
    {
      SanitisedTwice(args[i].value);
    }
  }

  lemma {:induction false} PickedTexts(flags: seq<bool>, args: seq<Option<Str>>)
    requires |flags| == |args|
    ensures Texts(Picked(flags, args)) == Picked(flags, Texts(args))
  {
    if args != [] {
      var n := |args| - 1;
      PickedTexts(flags[..n], args[..n]);
      assert Texts(args)[..n] == Texts(args[..n]);
    }
  }

  lemma StoredRepresentable(r: Record, ref: Option<Record>, slot: Byte, start: real)
    requires Representable(r, start)
    ensures Representable(StoredFor(r, ref, slot), start)
    ensures Readable(r.args) ==> Readable(StoredFor(r, ref, slot).args)
  {
    var s := StoredFor(r, ref, slot);
    assert forall x :: x in s.args ==> x in r.args;
    forall i | 0 <= i < |s.args| ensures s.args[i].Some? ==> 0 !in s.args[i].value {
      assert s.args[i] in s.args;
    }
    if Readable(r.args) {
      forall i | 0 <= i < |s.args| ensures Text(s.args[i]) != [] && NEWLINE !in Text(s.args[i]) {
        assert s.args[i] in s.args;
      }
    }
  }

  /** The window holds the records before this one, the latest first. */
  ghost predicate WindowOf(window: seq<Record>, history: seq<Record>) {
    |window| == RECORD_WINDOW_SIZE &&
    forall w :: 0 <= w < RECORD_WINDOW_SIZE ==>
      window[w] == if w < |history| then history[|history| - 1 - w] else EMPTY
  }

  /** Arguments that are not flagged print as those of the reference did. */
  lemma UnflaggedTexts(past: seq<Option<Str>>, args: seq<Option<Str>>)
    requires |past| == |args| && AllStrings(Kept(past)) && AllStrings(args)
    ensures var flags := Flags(Kept(past), args);
            forall j :: 0 <= j < |flags| && !flags[j] ==> Texts(past)[j] == Texts(args)[j]
  {
    KeptTexts(past);
    var flags := Flags(Kept(past), args);
    forall j | 0 <= j < |flags| && !flags[j] ensures Texts(Kept(past))[j] == Texts(args)[j] {
      assert Kept(past)[j] == args[j];
    }
  }

  lemma StoredAgainst(past: Record, r: Record, slot: Byte, before: seq<Entry>, start: real)
    requires slot < RECORD_WINDOW_SIZE && slot < |before| && Candidate(Settled(past), r)
    requires Representable(past, start) && before[|before| - 1 - slot] == Printed(past, start)
    requires Representable(r, start) && Representable(StoredFor(r, Some(Settled(past)), slot), start)
    ensures StoredAs(before, Printed(r, start), Printed(StoredFor(r, Some(Settled(past)), slot), start))
  {
    var flags := Flags(Kept(past.args), r.args);
    UnflaggedTexts(past.args, r.args);
    PickedTexts(flags, r.args);
    assert FlaggedAs(before, Printed(r, start), Printed(StoredFor(r, Some(Settled(past)), slot), start), slot, flags);
  }

  /** Storing against a slot of the window is one of the ways from which a reader restores the record. */
  lemma StoredIsStoredAs(r: Record, window: seq<Record>, slot: Byte, rs: seq<Record>, start: real)
    requires WindowOf(window, SettledAll(rs)) && slot < RECORD_WINDOW_SIZE
    requires Representable(r, start) && forall x :: x in rs ==> Representable(x, start)
    ensures var s := StoredFor(r, Some(window[slot]), slot);
            Representable(s, start) && StoredAs(PrintedAll(rs, start), Printed(r, start), Printed(s, start))
  {
    if Candidate(window[slot], r) {
      PastInWindow(r, window, slot, rs);
      StoredSomewhere(r, slot, rs, start);
    } else {
      StoredRaw(r, PrintedAll(rs, start), start);
    }
  }

  lemma StoredSomewhere(r: Record, slot: Byte, rs: seq<Record>, start: real)
    requires slot < RECORD_WINDOW_SIZE && slot < |rs| && Candidate(Settled(rs[|rs| - 1 - slot]), r)
    requires Representable(r, start) && forall x :: x in rs ==> Representable(x, start)
    ensures var s := StoredFor(r, Some(Settled(rs[|rs| - 1 - slot])), slot);
            Representable(s, start) && StoredAs(PrintedAll(rs, start), Printed(r, start), Printed(s, start))
  {
    var past := rs[|rs| - 1 - slot];
    assert past in rs;
    StoredRepresentable(r, Some(Settled(past)), slot, start);
    StoredAgainst(past, r, slot, PrintedAll(rs, start), start);
  }

  lemma StoredRaw(r: Record, before: seq<Entry>, start: real)
    requires Representable(r, start)
    ensures Representable(r.(status := 0), start)
    ensures StoredAs(before, Printed(r, start), Printed(r.(status := 0), start))
  {}

  /** A reference is a record of which the arguments have been sanitised. */
  lemma PastInWindow(r: Record, window: seq<Record>, slot: Byte, rs: seq<Record>)
    requires WindowOf(window, SettledAll(rs)) && slot < RECORD_WINDOW_SIZE && Candidate(window[slot], r)
    ensures slot < |rs| && window[slot] == Settled(rs[|rs| - 1 - slot]) && rs[|rs| - 1 - slot] in rs
  {}

  /** Arguments that are not printed equal those of a record whose arguments have all been sanitised before. */
  lemma AllSettledAfter(r: Record, window: seq<Record>, slot: Byte, rs: seq<Record>)
    requires WindowOf(window, SettledAll(rs)) && slot < RECORD_WINDOW_SIZE
    ensures AfterPrinting(r, Some(window[slot])) == Settled(r)
  {
    if Candidate(window[slot], r) {
      PastInWindow(r, window, slot, rs);
      var past, flags := rs[|rs| - 1 - slot], Flags(window[slot].args, r.args);
      forall j | 0 <= j < |flags| && !flags[j] ensures Kept(r.args)[j] == r.args[j] {
        assert r.args[j] == Kept(past.args)[j];
        SanitisedTwice(past.args[j].value);
      }
      assert KeptWhere(flags, r.args) == Kept(r.args);
    }
  }

  lemma WindowShift(window: seq<Record>, rs: seq<Record>, r: Record)
    requires WindowOf(window, SettledAll(rs))
    ensures WindowOf([Settled(r), window[0], window[1]], SettledAll(rs + [r]))
  {}

  /** Every record was stored in one of the ways from which a reader restores it. */
  ghost predicate Explained(written: seq<Record>, stored: seq<Record>, start: real) {
    && |stored| == |written|
    && (forall i {:trigger written[i]} :: 0 <= i < |written| ==> Representable(written[i], start))
    && (forall i {:trigger stored[i]} :: 0 <= i < |stored| ==>
          Representable(stored[i], start) && (Readable(written[i].args) ==> Readable(stored[i].args)))
    && (forall i {:trigger stored[i]} :: 0 <= i < |stored| ==>
          StoredAs(PrintedAll(written[..i], start), Printed(written[i], start), Printed(stored[i], start)))
  }

  lemma ExplainedMore(written: seq<Record>, stored: seq<Record>, start: real, r: Record, s: Record)
    requires Explained(written, stored, start) && Representable(r, start) && Representable(s, start)
    requires Readable(r.args) ==> Readable(s.args)
    requires StoredAs(PrintedAll(written, start), Printed(r, start), Printed(s, start))
    ensures Explained(written + [r], stored + [s], start)
  {
    var rs, ss := written + [r], stored + [s];
    forall i | 0 <= i < |ss|
      ensures StoredAs(PrintedAll(rs[..i], start), Printed(rs[i], start), Printed(ss[i], start))
    {
      assert i < |written| ==> rs[..i] == written[..i] && rs[i] == written[i] && ss[i] == stored[i];
      assert rs[..|written|] == written;
    }
  }

  lemma {:induction false} LinesMore(fs: seq<Str>, f: Str)
    ensures Lines(fs + [f]) == Lines(fs) + (f + [NEWLINE])
  {
    if fs == [] {
      assert fs + [f] == [f] && [f][1..] == [];
    } else {
      LinesMore(fs[1..], f);
      assert (fs + [f])[1..] == fs[1..] + [f];
    }
  }

  lemma EncodeMore(rs: seq<Record>, r: Record, start: real)
    requires Representable(r, start) && forall x :: x in rs ==> Representable(x, start)
    ensures EncodeAll(rs + [r], start) == EncodeAll(rs, start) + Encode(r, start)
  {
    var f := Frame(Printed(r, start), r.args);
    EncodedLines(rs, start);
    EncodedLines(rs + [r], start);
    assert FramesOf(rs + [r], start) == FramesOf(rs, start) + [f];
    LinesMore(FramesOf(rs, start), f);
  }

  /** A stream of which every record is explained is read and restored exactly, but for the status bytes, when all
      arguments are readable. */
  lemma ExplainedRestores(written: seq<Record>, stored: seq<Record>, start: real)
    requires Explained(written, stored, start) && forall i :: 0 <= i < |written| ==> Readable(written[i].args)
    ensures var es := Parse(EncodeAll(stored, start));
            && es.Some? && |es.value| == |written|
            && var back := Restored(es.value, |written|);
            back.Some? && SameRecords(back.value, PrintedAll(written, start))
  {
    RoundTrip(stored, start);
    var fulls, es := PrintedAll(written, start), PrintedAll(stored, start);
    forall i | 0 <= i < |es| ensures StoredAs(fulls[..i], fulls[i], es[i]) {
      assert Representable(stored[i], start);
      assert fulls[..i] == PrintedAll(written[..i], start);
    }
    StreamRestored(fulls, es, |es|);
    assert fulls[..|es|] == fulls;
  }

  class Logger {
    const membuf: MemBuf
    const startTimestamp: real
    const recordWindow: array<Record>
    /** All records so far, and what was stored for them. */
    ghost var written: seq<Record>
    ghost var stored: seq<Record>

    ghost predicate Valid()
      reads this, membuf, membuf.buffer, recordWindow
    {
      && membuf.Valid() && membuf.buffer != recordWindow as object
      && recordWindow.Length == RECORD_WINDOW_SIZE && WindowOf(recordWindow[..], SettledAll(written))
      && Explained(written, stored, startTimestamp) && membuf.Appended() == EncodeAll(stored, startTimestamp)
    }

    constructor (size: nat, start: real)
      requires size > 0
      ensures Valid() && written == [] && fresh(membuf) && fresh(membuf.buffer) && fresh(recordWindow)
      ensures startTimestamp == start
    {
      membuf := new MemBuf(size);
      startTimestamp := start;
      recordWindow := new Record[RECORD_WINDOW_SIZE](_ => EMPTY);
      written, stored := [], [];
    }

    /** What is stored for a record when the search came up with the given slot of the window. */
    method Compress(r: Record, slot: Option<Byte>) returns (toStore: Record)
      requires recordWindow.Length == RECORD_WINDOW_SIZE && (slot.Some? ==> slot.value < RECORD_WINDOW_SIZE)
      ensures toStore == if slot.Some? then StoredFor(r, Some(recordWindow[slot.value]), slot.value)
                         else r.(status := 0)
    {
      toStore := r.(status := 0);
      if slot.Some? && Candidate(recordWindow[slot.value], r) {
        var d := GetDiffRecord(recordWindow[slot.value].args, r.args);
        toStore := Record(d.value.status, r.tstart, r.tend, slot.value, d.value.args, r.res);
      }
    }

    lemma Stored(r: Record, slot: Option<Byte>, s: Record)
      requires Valid() && Representable(r, startTimestamp) && (slot.Some? ==> slot.value < RECORD_WINDOW_SIZE)
      requires s == if slot.Some? then StoredFor(r, Some(recordWindow[slot.value]), slot.value) else r.(status := 0)
      ensures Representable(s, startTimestamp) && Explained(written + [r], stored + [s], startTimestamp)
      ensures EncodeAll(stored + [s], startTimestamp) == EncodeAll(stored, startTimestamp) + Encode(s, startTimestamp)
    {
      var start := startTimestamp;
      var w := if slot.Some? then slot.value else 0;
      var ref := if slot.Some? then Some(recordWindow[slot.value]) else None;
      assert s == StoredFor(r, ref, w);
      StoredRepresentable(r, ref, w, start);
      if slot.Some? { StoredIsStoredAs(r, recordWindow[..], w, written, start); }
      ExplainedMore(written, stored, start, r, s);
      EncodeMore(stored, s, start);
    }

    /** writeInRecorder. The slot is what the search for a reference comes up with; with the search switched off
        there is none. */
    method WriteInRecorder(r: Record, slot: Option<Byte>)
      requires Valid() && Representable(r, startTimestamp) && (slot.Some? ==> slot.value < RECORD_WINDOW_SIZE)
      modifies `written, `stored, recordWindow, membuf, membuf.buffer
      ensures Valid() && written == old(written) + [r]
      ensures stored == old(stored)
                + [if slot.Some? then StoredFor(r, Some(old(recordWindow[slot.value])), slot.value)
                   else r.(status := 0)]
    {
      var toStore := Compress(r, slot);
      Stored(r, slot, toStore);
      WindowShift(recordWindow[..], written, r);
      var settled := AfterPrinting(r, if slot.Some? then Some(recordWindow[slot.value]) else None);
      if slot.Some? { AllSettledAfter(r, recordWindow[..], slot.value, written); }
      var bytes := Encode(toStore, startTimestamp);
      membuf.Append(bytes);
      Shift(settled);
      written, stored := written + [r], stored + [toStore];
    }

    method Shift(r: Record)
      requires recordWindow.Length == RECORD_WINDOW_SIZE
      modifies recordWindow
      ensures recordWindow[..] == [r, old(recordWindow[0]), old(recordWindow[1])]
    {
      recordWindow[2] := recordWindow[1];
      recordWindow[1] := recordWindow[0];
      recordWindow[0] := r;
    }
  }

  /** Traces records, whatever reference the search picks for each, then dumps the buffer, reads the file and
      decompresses it in place: the records come back, but for the status bytes, and tell what was traced. */
  method TraceAndRead(rs: seq<Record>, slots: seq<Option<Byte>>, size: nat, start: real)
    returns (ok: bool, back: array<Entry>)
    requires size > 0 && |slots| == |rs| && forall r :: r in rs ==> Representable(r, start) && Readable(r.args)
    requires forall i :: 0 <= i < |slots| && slots[i].Some? ==> slots[i].value < RECORD_WINDOW_SIZE
    ensures ok && SameRecords(back[..], PrintedAll(rs, start))
    ensures back.Length == |rs| && forall i :: 0 <= i < |rs| ==> Tells(back[i], rs[i], start)
  {
    var logger := new Logger(size, start);
    WriteAll(logger, rs, slots);
    logger.membuf.Dump();
    ExplainedRestores(rs, logger.stored, start);
    var es := ReadRecords(logger.membuf.file);
    ok, back := Decompressed(es.value);
    AllTell(rs, back[..], start);
  }

  lemma AllTell(rs: seq<Record>, es: seq<Entry>, start: real)
    requires forall r :: r in rs ==> Representable(r, start)
    requires SameRecords(es, PrintedAll(rs, start))
    ensures |es| == |rs| && forall i :: 0 <= i < |rs| ==> Tells(es[i], rs[i], start)
  {
    forall i | 0 <= i < |rs| ensures Tells(es[i], rs[i], start) {
      assert rs[i] in rs;
      PrintedTells(rs[i], start, es[i]);
    }
  }

  method Decompressed(es: seq<Entry>) returns (ok: bool, back: array<Entry>)
    ensures ok <==> Restored(es, |es|).Some?
    ensures ok ==> back[..] == Restored(es, |es|).value
  {
    back := new Entry[|es|](i requires 0 <= i < |es| => es[i]);
    assert back[..] == es && es[..|es|] == es;
    ok := DecompressRecords(back);
  }

  method WriteAll(logger: Logger, rs: seq<Record>, slots: seq<Option<Byte>>)
    requires logger.Valid() && logger.written == [] && |slots| == |rs|
    requires forall r :: r in rs ==> Representable(r, logger.startTimestamp)
    requires forall i :: 0 <= i < |slots| && slots[i].Some? ==> slots[i].value < RECORD_WINDOW_SIZE
    modifies logger, logger.recordWindow, logger.membuf, logger.membuf.buffer
    ensures logger.Valid() && logger.written == rs
  {
    for i := 0 to |rs|
      invariant logger.Valid() && logger.written == rs[..i]
    {
      OneMore(rs, i);
      WriteNext(logger, rs[i], slots[i]);
    }
    assert rs[..|rs|] == rs;
  }

  method WriteNext(logger: Logger, r: Record, slot: Option<Byte>)
    requires logger.Valid() && Representable(r, logger.startTimestamp)
    requires slot.Some? ==> slot.value < RECORD_WINDOW_SIZE
    modifies logger, logger.recordWindow, logger.membuf, logger.membuf.buffer
    ensures logger.Valid() && logger.written == old(logger.written) + [r]
  {
    logger.WriteInRecorder(r, slot);
  }
}
