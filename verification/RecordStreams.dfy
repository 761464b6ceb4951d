/** The record printer and the record reader as they run, over buffers that they change in place. */
module RecordStreams {
  import opened Options
  import opened Sequences
  import opened RecordCodec

  // -------------------------------------------------------------------- writing

  ghost function ArgsOf(args: seq<array?<Byte>>): (r: seq<Option<Str>>)
    reads set a | a in args && a != null
    ensures |r| == |args|
    ensures forall i :: 0 <= i < |r| ==> r[i] == if args[i] == null then None else Some(args[i][..])
  {
    seq(|args|, i requires 0 <= i < |args| reads set a | a in args && a != null =>
      if args[i] == null then None else Some(args[i][..]))
  }

  /** Turns spaces into underscores, in the caller's string. */
  method Sanitise(arg: array<Byte>)
    modifies arg
    ensures arg[..] == Sanitised(old(arg[..]))
  {
    for j := 0 to arg.Length
      invariant forall k :: 0 <= k < j ==> arg[k] == if old(arg[k]) == SPACE then UNDERSCORE else old(arg[k])
      invariant forall k :: j <= k < arg.Length ==> arg[k] == old(arg[k])
    {
      if arg[j] == SPACE { arg[j] := UNDERSCORE; }
    }
  }

  lemma SanitisedTwice(s: Str)
    ensures Sanitised(Sanitised(s)) == Sanitised(s)
  {}

  /** What printing leaves of the caller's arguments. */
  function Kept(args: seq<Option<Str>>): (r: seq<Option<Str>>)
    ensures |r| == |args| && forall i :: 0 <= i < |r| ==>
              r[i] == if args[i].Some? then Some(Sanitised(args[i].value)) else None
  {
    seq(|args|, i requires 0 <= i < |args| => if args[i].Some? then Some(Sanitised(args[i].value)) else None)
  }

  /** Prints one argument and sanitises it. */
  method WriteArgument(membuf: MemBuf, arg: array?<Byte>)
    requires membuf.Valid() && membuf.buffer != arg
    modifies membuf, membuf.buffer, if arg == null then {} else {arg}
    ensures membuf.Valid()
    ensures membuf.Appended() ==
            old(membuf.Appended()) + [SPACE] + Text(if arg == null then None else Some(old(arg[..])))
    ensures arg != null ==> arg[..] == Sanitised(old(arg[..]))
  {
    membuf.Append([SPACE]);
    if arg != null {
      Sanitise(arg);
      membuf.Append(arg[..]);
    } else {
      membuf.Append(UNKNOWN);
    }
  }

  /** While the first i arguments have been sanitised, with all the places they share. */
  ghost predicate Underway(args: seq<array?<Byte>>, given: seq<Option<Str>>, i: nat)
    requires |given| == |args|
    reads set a | a in args && a != null
  {
    && (forall k :: 0 <= k < |args| ==> (args[k] == null <==> given[k].None?))
    && (forall k :: 0 <= k < |args| && args[k] != null ==>
          args[k][..] == given[k].value || args[k][..] == Sanitised(given[k].value))
    && (forall k :: 0 <= k < i && k < |args| && args[k] != null ==> args[k][..] == Sanitised(given[k].value))
  }

  lemma LineStep(start: seq<Byte>, args: seq<Option<Str>>, i: nat)
    requires i < |args|
    ensures start + Line(args[..i]) + [SPACE] + Text(args[i]) == start + Line(args[..i + 1])
  {
    assert args[..i + 1][..i] == args[..i];
    assert start + Line(args[..i]) + [SPACE] + Text(args[i]) == start + (Line(args[..i]) + [SPACE] + Text(args[i]));
  }

  /** writeArguments: prints the arguments, which may share storage, and sanitises them on the way. */
  method WriteArguments(membuf: MemBuf, args: seq<array?<Byte>>)
    requires membuf.Valid() && membuf.buffer !in args
    modifies membuf, membuf.buffer, set a | a in args && a != null
    ensures membuf.Valid() && membuf.Appended() == old(membuf.Appended()) + Line(old(ArgsOf(args))) + [NEWLINE]
    ensures ArgsOf(args) == Kept(old(ArgsOf(args)))
  {
    ghost var given := ArgsOf(args);
    ghost var start := membuf.Appended();
    for i := 0 to |args|
      invariant membuf.Valid() && membuf.Appended() == start + Line(given[..i])
      invariant Underway(args, given, i)
    {
      WriteNext(membuf, args, i, given, start);
    }
    assert given[..|args|] == given;
    membuf.Append([NEWLINE]);
  }

  method WriteNext(membuf: MemBuf, args: seq<array?<Byte>>, i: nat, ghost given: seq<Option<Str>>,
                   ghost start: seq<Byte>)
    requires membuf.Valid() && membuf.buffer !in args && i < |args| == |given|
    requires membuf.Appended() == start + Line(given[..i]) && Underway(args, given, i)
    modifies membuf, membuf.buffer, set a | a in args && a != null
    ensures membuf.Valid() && membuf.Appended() == start + Line(given[..i + 1]) && Underway(args, given, i + 1)
  {
    if args[i] != null { SanitisedTwice(given[i].value); }
    ghost var was := ArgsOf(args);
    WriteArgument(membuf, args[i]);
    LineStep(start, given, i);
    StillUnderway(args, given, was, i);
  }

  lemma StillUnderway(args: seq<array?<Byte>>, given: seq<Option<Str>>, was: seq<Option<Str>>, i: nat)
    requires |given| == |args| == |was| && i < |args|
    requires forall k :: 0 <= k < |args| ==>
               (args[k] == null <==> given[k].None?) && (args[k] == null <==> was[k].None?)
    requires forall k :: 0 <= k < |args| && args[k] != null ==>
               was[k] == given[k] || was[k].value == Sanitised(given[k].value)
    requires forall k :: 0 <= k < i && args[k] != null ==> was[k].value == Sanitised(given[k].value)
    requires forall k :: 0 <= k < |args| && args[k] != null ==>
               args[k][..] == if args[k] == args[i] then Sanitised(was[k].value) else was[k].value
    ensures Underway(args, given, i + 1)
  {
    forall k | 0 <= k < |args| && args[k] != null
      ensures args[k] == args[i] ==> args[k][..] == Sanitised(given[k].value)
    {
      SanitisedTwice(given[k].value);
    }
  }

  method WriteHeader(membuf: MemBuf, entry: Entry)
    requires membuf.Valid()
    modifies membuf, membuf.buffer
    ensures membuf.Valid() && membuf.Appended() == old(membuf.Appended()) + Header(entry)
  {
    ghost var start := membuf.Appended();
    membuf.Append([entry.status]);
    membuf.Append(Le4(entry.tstart));
    membuf.Append(Le4(entry.tend));
    membuf.Append(Le4(entry.res));
    membuf.Append([entry.funcId]);
    HeaderParts(start, entry);
  }

  lemma HeaderParts(start: seq<Byte>, e: Entry)
    ensures start + [e.status] + Le4(e.tstart) + Le4(e.tend) + Le4(e.res) + [e.funcId] == start + Header(e)
  {}

  /** A record whose arguments are strings in memory. */
  datatype RawRecord = RawRecord(status: Byte, tstart: real, tend: real, funcId: Byte, args: seq<array?<Byte>>,
                                 res: Int32)
  {
    ghost function Value(): Record
      reads set a | a in args && a != null
    {
      Record(status, tstart, tend, funcId, ArgsOf(args), res)
    }
  }

  /** writeInBinary */
  method WriteInBinary(membuf: MemBuf, r: RawRecord, start: real)
    requires membuf.Valid() && membuf.buffer !in r.args && Representable(r.Value(), start)
    modifies membuf, membuf.buffer, set a | a in r.args && a != null
    ensures membuf.Valid() && membuf.Appended() == old(membuf.Appended()) + old(Encode(r.Value(), start))
    ensures ArgsOf(r.args) == Kept(old(ArgsOf(r.args)))
  {
    ghost var before := membuf.Appended();
    ghost var value := r.Value();
    WriteHeader(membuf, Entry(r.status, Ticks(r.tstart, start), Ticks(r.tend, start), r.funcId, [], r.res));
    WriteArguments(membuf, r.args);
    EncodeParts(before, value, start);
  }

  lemma EncodeParts(before: seq<Byte>, r: Record, start: real)
    requires Representable(r, start)
    ensures before + Header(Printed(r, start)) + Line(r.args) + [NEWLINE] == before + Encode(r, start)
  {}

  // -------------------------------------------------------------------- reading

  ghost predicate TokensUpTo(s: Str, p: nat, tokens: seq<Str>)
    requires p <= |s|
  {
    Tokens(s) == tokens + Tokens(s[p..])
  }

  lemma TokensNext(s: Str, p: nat, tokens: seq<Str>)
    requires p < |s| && TokensUpTo(s, p, tokens)
    ensures if s[p] == SPACE then TokensUpTo(s, p + 1, tokens)
            else var n := WordLength(s[p..]); TokensUpTo(s, p + n, tokens + [s[p..p + n]])
  {
    var n := WordLength(s[p..]);
    assert s[p..][1..] == s[p + 1..] && s[p..][..n] == s[p..p + n] && s[p..][n..] == s[p + n..];
    assert tokens + ([s[p..p + n]] + Tokens(s[p + n..])) == tokens + [s[p..p + n]] + Tokens(s[p + n..]);
  }

  lemma TokensEnd(s: Str, tokens: seq<Str>)
    ensures TokensUpTo(s, 0, [])
    ensures TokensUpTo(s, |s|, tokens) ==> Tokens(s) == tokens
  {
    assert s[0..] == s && s[|s|..] == [] && tokens + [] == tokens && [] + Tokens(s) == Tokens(s);
  }

  /** The strtok loop. */
  method Split(s: Str) returns (tokens: seq<Str>)
    ensures tokens == Tokens(s)
  {
    tokens := [];
    var p := 0;
    TokensEnd(s, tokens);
    while p < |s|
      invariant p <= |s| && TokensUpTo(s, p, tokens)
    {
      TokensNext(s, p, tokens);
      if s[p] == SPACE {
        p := p + 1;
      } else {
        var n := WordLength(s[p..]);
        tokens := tokens + [s[p..p + n]];
        p := p + n;
      }
    }
    TokensEnd(s, tokens);
  }

  /** get_record_arguments: None when the tokens outnumber the slots. */
  method GetRecordArguments(str: Str, argCount: nat) returns (args: Option<seq<Option<Str>>>)
    ensures var tokens := Tokens(UpToNul(str));
            args == if |tokens| <= argCount then Some(Slots(tokens, argCount)) else None
  {
    var tokens := Split(UpToNul(str));
    args := if |tokens| <= argCount then Some(Slots(tokens, argCount)) else None;
  }

  /** Looks for the newline that ends the record, counting spaces. */
  method ScanLine(c: Str, from: nat) returns (nl: Option<nat>, count: nat)
    requires from <= |c|
    ensures nl == NewlineAt(c, from)
    ensures nl.Some? ==> count == Spaces(c[from..nl.value])
  {
    count := 0;
    for i := from to |c|
      invariant count == Spaces(c[from..i]) && NEWLINE !in c[from..i]
    {
      if c[i] == NEWLINE {
        NewlineBehind(c, from, i);
        return Some(i), count;
      }
      assert c[from..i + 1][..i - from] == c[from..i];
      if c[i] == SPACE { count := count + 1; }
    }
    assert forall j :: from <= j < |c| ==> c[j] == c[from..][j - from];
    nl := None;
  }

  /** The frames up to pos, and those of the rest, make up all of them. */
  ghost predicate CutUpTo(c: Str, pos: nat, fs: seq<Str>, all: Option<seq<Str>>) {
    var rest := Frames(c, pos);
    all == if rest.Some? then Some(fs + rest.value) else None
  }

  lemma CutNext(c: Str, pos: nat, nl: nat, fs: seq<Str>, all: Option<seq<Str>>)
    requires pos < |c| && CutUpTo(c, pos, fs, all) && NewlineAt(c, pos + HEADER_SIZE) == Some(nl)
    ensures CutUpTo(c, nl + 1, fs + [c[pos..nl]], all)
  {
    var rest := Frames(c, nl + 1);
    if rest.Some? { Associate(fs, [c[pos..nl]], rest.value); }
  }

  lemma CutEnds(c: Str, fs: seq<Str>, all: Option<seq<Str>>)
    ensures CutUpTo(c, 0, [], Frames(c, 0))
    ensures CutUpTo(c, |c|, fs, all) ==> all == Some(fs)
  {
    assert fs + [] == fs;
    if Frames(c, 0).Some? { assert [] + Frames(c, 0).value == Frames(c, 0).value; }
  }

  lemma CutStuck(c: Str, pos: nat, fs: seq<Str>, all: Option<seq<Str>>)
    requires pos < |c| && CutUpTo(c, pos, fs, all) && NewlineAt(c, pos + HEADER_SIZE) == None
    ensures all == None
  {}

  /** Decodes one record of which the spaces were counted. */
  method ReadRecord(f: Str, count: nat) returns (e: Option<Entry>)
    requires |f| >= HEADER_SIZE && count == Spaces(f[HEADER_SIZE..])
    ensures e == Decode(f)
  {
    var args := Some([]);
    if count > 0 {
      assert f[HEADER_SIZE..][1..] == f[HEADER_SIZE + 1..];
      args := GetRecordArguments(f[HEADER_SIZE + 1..], count);
    }
    e := None;
    if args.Some? {
      e := Some(Entry(f[0], FromLe4(f[1..5]), FromLe4(f[5..9]), f[13], args.value, FromLe4(f[9..13])));
    }
  }

  /** A frame that does not decode spoils the whole. */
  lemma Spoiled(c: Str, pos: nat, nl: nat, fs: seq<Str>, all: Option<seq<Str>>)
    requires pos < |c| && CutUpTo(c, pos, fs, all) && NewlineAt(c, pos + HEADER_SIZE) == Some(nl)
    requires Decode(c[pos..nl]) == None
    ensures all == None || !AllDecode(all.value)
  {
    if all.Some? { assert all.value[|fs|] == c[pos..nl]; }
  }

  /** One turn of the loop in read_records: the record at pos, and its newline. */
  method ReadNext(c: Str, pos: nat, ghost fs: seq<Str>, ghost all: Option<seq<Str>>) returns (r: Option<(Entry, nat)>)
    requires pos < |c| && CutUpTo(c, pos, fs, all)
    ensures r.None? ==> all == None || !AllDecode(all.value)
    ensures r.Some? ==> var (e, nl) := r.value;
                        && pos + HEADER_SIZE <= nl < |c| && Decode(c[pos..nl]) == Some(e)
                        && CutUpTo(c, nl + 1, fs + [c[pos..nl]], all)
  {
    if pos + HEADER_SIZE > |c| {
      CutStuck(c, pos, fs, all);
      return None;
    }
    var nl, count := ScanLine(c, pos + HEADER_SIZE);
    if nl.None? {
      CutStuck(c, pos, fs, all);
      return None;
    }
    assert c[pos..nl.value][HEADER_SIZE..] == c[pos + HEADER_SIZE..nl.value];
    var e := ReadRecord(c[pos..nl.value], count);
    if e.None? {
      Spoiled(c, pos, nl.value, fs, all);
      return None;
    }
    CutNext(c, pos, nl.value, fs, all);
    r := Some((e.value, nl.value));
  }

  lemma DecodedMore(fs: seq<Str>, f: Str, e: Entry)
    requires AllDecode(fs) && |f| >= HEADER_SIZE && Decode(f) == Some(e)
    ensures AllDecode(fs + [f]) && Decoded(fs + [f]) == Decoded(fs) + [e]
  {}

  /** read_records: None where the reader would never return or would overrun its argument slots. */
  method ReadRecords(c: Str) returns (records: Option<seq<Entry>>)
    ensures records == Parse(c)
  {
    var done: seq<Entry> := [];
    ghost var fs: seq<Str>, all := [], Frames(c, 0);
    var pos := 0;
    CutEnds(c, fs, all);
    while pos < |c|
      invariant pos <= |c| && CutUpTo(c, pos, fs, all) && AllDecode(fs) && done == Decoded(fs)
    {
      var r := ReadNext(c, pos, fs, all);
      if r.None? { return None; }
      var (e, nl) := r.value;
      DecodedMore(fs, c[pos..nl], e);
      fs := fs + [c[pos..nl]];
      done := done + [e];
      pos := nl + 1;
    }
    CutEnds(c, fs, all);
    records := Some(done);
  }
}
