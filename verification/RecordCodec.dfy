/** The binary trace format: a buffered writer that prints records, and a reader that parses them. */
module RecordCodec {
  import opened Options

  type Byte = x: int | 0 <= x < 256

  /** A C string without its terminator. */
  type Str = seq<Byte>

  type Int32 = x: int | -0x8000_0000 <= x < 0x8000_0000

  const SPACE: Byte := 32
  const UNDERSCORE: Byte := 95
  const NEWLINE: Byte := 10
  const UNKNOWN: Str := [63, 63, 63]
  const TIME_RESOLUTION: real := 0.000001
  const HEADER_SIZE: nat := 14

  /** A record as traced; None is a NULL argument. */
  datatype Record = Record(status: Byte, tstart: real, tend: real, funcId: Byte, args: seq<Option<Str>>, res: Int32)

  /** A record as read; None is an argument slot that was counted but never filled. */
  datatype Entry = Entry(status: Byte, tstart: Int32, tend: Int32, funcId: Byte, args: seq<Option<Str>>, res: Int32)

  // ------------------------------------------------------------------- the buffer

  /** The memory buffer in front of the data file. */
  class MemBuf {
    const buffer: array<Byte>
    const size: nat
    var pos: nat
    /** What has been written to the data file. */
    var file: seq<Byte>

    ghost predicate Valid()
      reads this, buffer
    {
      buffer.Length == size && pos < size
    }

    /** All that was ever appended: the flushed bytes, then the buffered ones. */
    ghost function Appended(): seq<Byte>
      reads this, buffer
      requires Valid()
    {
      file + buffer[..pos]
    }

    constructor (size: nat)
      requires size > 0
      ensures Valid() && Appended() == [] && fresh(buffer) && this.size == size
    {
      this.size := size;
      buffer := new Byte[size](_ => 0);
      pos, file := 0, [];
    }

    method Dump()
      requires Valid()
      modifies this
      ensures Valid() && pos == 0 && Appended() == old(Appended()) && file == old(Appended())
    {
      file := file + buffer[..pos];
      pos := 0;
    }

    method Append(bytes: seq<Byte>)
      requires Valid()
      modifies this, buffer
      ensures Valid() && Appended() == old(Appended()) + bytes
    {
      if |bytes| >= size {
        Dump();
        file := file + bytes;
        return;
      }
      if pos + |bytes| >= size {
        Dump();
      }
      Copy(bytes);
    }

    /** Copies the bytes behind those in the buffer. */
    method Copy(bytes: seq<Byte>)
      requires Valid() && pos + |bytes| < size
      modifies this, buffer
      ensures Valid() && Appended() == old(Appended()) + bytes
    {
      ghost var done := buffer[..pos];
      for i := 0 to |bytes|
        invariant Valid() && pos == old(pos) && file == old(file) && pos + |bytes| < size
        invariant buffer[..pos + i] == done + bytes[..i]
      {
        buffer[pos + i] := bytes[i];
        assert buffer[..pos + i + 1] == buffer[..pos + i] + [bytes[i]];
      }
      pos := pos + |bytes|;
    }
  }

  // -------------------------------------------------------------------- integers

  function Power256(k: nat): nat { if k == 0 then 1 else 256 * Power256(k - 1) }

  /** The k lowest bytes, least significant first. */
  function Digits(n: nat, k: nat): (r: seq<Byte>)
    ensures |r| == k
  {
    if k == 0 then [] else [n % 256] + Digits(n / 256, k - 1)
  }

  function FromDigits(b: seq<Byte>): (r: nat)
    ensures r < Power256(|b|)
  {
    if b == [] then 0 else b[0] as int + 256 * FromDigits(b[1..])
  }

  lemma {:induction false} DigitsBack(n: nat, k: nat)
    requires n < Power256(k)
    ensures FromDigits(Digits(n, k)) == n
  {
    if k > 0 {
      DigitsBack(n / 256, k - 1);
      assert Digits(n, k)[1..] == Digits(n / 256, k - 1);
    }
  }

  /** A 32-bit integer in memory: two's complement, least significant byte first. */
  function Le4(n: Int32): (r: seq<Byte>)
    ensures |r| == 4
  {
    Digits(if n < 0 then n + 0x1_0000_0000 else n, 4)
  }

  function FromLe4(b: seq<Byte>): Int32
    requires |b| == 4
  {
    var u := FromDigits(b);
    assert Power256(4) == 0x1_0000_0000;
    if u >= 0x8000_0000 then u - 0x1_0000_0000 else u
  }

  lemma Le4RoundTrip(n: Int32)
    ensures FromLe4(Le4(n)) == n
  {
    assert Power256(4) == 0x1_0000_0000;
    DigitsBack(if n < 0 then n + 0x1_0000_0000 else n, 4);
  }

  /** The C conversion to an integer, towards zero. */
  function Truncate(x: real): int { if x >= 0.0 then x.Floor else -(-x).Floor }

  function Ticks(t: real, start: real): int { Truncate((t - start) / TIME_RESOLUTION) }

  ghost predicate Representable(r: Record, start: real) {
    && -0x8000_0000 <= Ticks(r.tstart, start) < 0x8000_0000
    && -0x8000_0000 <= Ticks(r.tend, start) < 0x8000_0000
    && forall i :: 0 <= i < |r.args| && r.args[i].Some? ==> 0 !in r.args[i].value
  }

  // -------------------------------------------------------------------- the format

  function Sanitised(s: Str): (r: Str)
    ensures |r| == |s| && forall j :: 0 <= j < |s| ==> r[j] == if s[j] == SPACE then UNDERSCORE else s[j]
  {
    seq(|s|, j requires 0 <= j < |s| => if s[j] == SPACE then UNDERSCORE else s[j])
  }

  /** How an argument is printed. */
  function Text(arg: Option<Str>): Str { if arg.Some? then Sanitised(arg.value) else UNKNOWN }

  function Texts(args: seq<Option<Str>>): (r: seq<Option<Str>>)
    ensures |r| == |args| && forall i :: 0 <= i < |r| ==> r[i] == Some(Text(args[i]))
  {
    seq(|args|, i requires 0 <= i < |args| => Some(Text(args[i])))
  }

  function Line(args: seq<Option<Str>>): Str {
    if args == [] then [] else Line(args[..|args| - 1]) + [SPACE] + Text(args[|args| - 1])
  }

  function Header(e: Entry): (r: seq<Byte>)
    ensures |r| == HEADER_SIZE
  {
    [e.status] + Le4(e.tstart) + Le4(e.tend) + Le4(e.res) + [e.funcId]
  }

  /** The record that a reader should get back. */
  function Printed(r: Record, start: real): Entry
    requires Representable(r, start)
  {
    Entry(r.status, Ticks(r.tstart, start), Ticks(r.tend, start), r.funcId, Texts(r.args), r.res)
  }

  /** A printed record without its newline. */
  function Frame(e: Entry, args: seq<Option<Str>>): seq<Byte> { Header(e) + Line(args) }

  function Encode(r: Record, start: real): seq<Byte>
    requires Representable(r, start)
  {
    Frame(Printed(r, start), r.args) + [NEWLINE]
  }

  function EncodeAll(rs: seq<Record>, start: real): seq<Byte>
    requires forall r :: r in rs ==> Representable(r, start)
  {
    if rs == [] then [] else Encode(rs[0], start) + EncodeAll(rs[1..], start)
  }

  function PrintedAll(rs: seq<Record>, start: real): (es: seq<Entry>)
    requires forall r :: r in rs ==> Representable(r, start)
    ensures |es| == |rs| && forall i :: 0 <= i < |rs| ==> es[i] == Printed(rs[i], start)
  {
    seq(|rs|, i requires 0 <= i < |rs| => Printed(rs[i], start))
  }

  // --------------------------------------------------------------------- parsing

  /** Where the first newline at or after i is. */
  function NewlineAt(c: Str, i: nat): (r: Option<nat>)
    ensures r.Some? ==> i <= r.value < |c| && c[r.value] == NEWLINE && NEWLINE !in c[i..r.value]
    ensures r.None? ==> forall j :: i <= j < |c| ==> c[j] != NEWLINE
    decreases |c| - i
  {
    if i >= |c| then None else if c[i] == NEWLINE then Some(i) else NewlineAt(c, i + 1)
  }

  function Spaces(s: Str): nat {
    if s == [] then 0 else Spaces(s[..|s| - 1]) + if s[|s| - 1] == SPACE then 1 else 0
  }

  /** The part before the first zero byte. */
  function UpToNul(s: Str): (r: Str)
    ensures r <= s && 0 !in r && (0 !in s ==> r == s) && (|r| < |s| ==> s[|r|] == 0)
  {
    if s == [] || s[0] == 0 then [] else [s[0]] + UpToNul(s[1..])
  }

  function WordLength(s: Str): (n: nat)
    ensures n <= |s| && SPACE !in s[..n] && (n < |s| ==> s[n] == SPACE)
    ensures s != [] && s[0] != SPACE ==> n > 0
  {
    if s == [] || s[0] == SPACE then 0 else 1 + WordLength(s[1..])
  }

  /** strtok with a space: the maximal non-empty stretches without spaces. */
  function Tokens(s: Str): seq<Str> {
    if s == [] then []
    else if s[0] == SPACE then Tokens(s[1..])
    else [s[..WordLength(s)]] + Tokens(s[WordLength(s)..])
  }

  /** Tokens in counted slots. */
  function Slots(tokens: seq<Str>, count: nat): (r: seq<Option<Str>>)
    requires |tokens| <= count
    ensures |r| == count && forall i :: 0 <= i < count ==> r[i] == if i < |tokens| then Some(tokens[i]) else None
  {
    seq(count, i requires 0 <= i < count => if i < |tokens| then Some(tokens[i]) else None)
  }

  /** The arguments printed between header and newline, where the first byte is skipped; None when there are more
      tokens than counted slots. */
  function ArgsIn(area: Str): Option<seq<Option<Str>>> {
    var count := Spaces(area);
    if count == 0 || area == [] then Some([])
    else
      var tokens := Tokens(UpToNul(area[1..]));
      if |tokens| <= count then Some(Slots(tokens, count)) else None
  }

  function Decode(f: Str): Option<Entry>
    requires |f| >= HEADER_SIZE
  {
    var args := ArgsIn(f[HEADER_SIZE..]);
    if args.Some? then Some(Entry(f[0], FromLe4(f[1..5]), FromLe4(f[5..9]), f[13], args.value, FromLe4(f[9..13])))
    else None
  }

  /** At least a header, and no newline behind it. */
  predicate IsFrame(f: Str) { |f| >= HEADER_SIZE && NEWLINE !in f[HEADER_SIZE..] }

  /** Cuts c from a position on into records without their newlines. None when a record lacks its newline: the reader
      would not get past it. */
  function Frames(c: Str, pos: nat): (r: Option<seq<Str>>)
    ensures r.Some? ==> forall i :: 0 <= i < |r.value| ==> IsFrame(r.value[i])
    decreases |c| - pos
  {
    if pos >= |c| then Some([])
    else
      var nl := NewlineAt(c, pos + HEADER_SIZE);
      if nl.None? then None
      else
        var rest := Frames(c, nl.value + 1);
        assert c[pos..nl.value][HEADER_SIZE..] == c[pos + HEADER_SIZE..nl.value];
        if rest.Some? then Some([c[pos..nl.value]] + rest.value) else None
  }

  predicate AllDecode(fs: seq<Str>) {
    forall i {:trigger fs[i]} :: 0 <= i < |fs| ==> |fs[i]| >= HEADER_SIZE && Decode(fs[i]).Some?
  }

  function Decoded(fs: seq<Str>): (es: seq<Entry>)
    requires AllDecode(fs)
    ensures |es| == |fs| && forall i :: 0 <= i < |fs| ==> Decode(fs[i]) == Some(es[i])
  {
    seq(|fs|, i requires 0 <= i < |fs| => Decode(fs[i]).value)
  }

  /** The records in c. None where the reader would never return or would overrun its argument slots. */
  function Parse(c: Str): Option<seq<Entry>> {
    var fs := Frames(c, 0);
    if fs.Some? && AllDecode(fs.value) then Some(Decoded(fs.value)) else None
  }

  // ---------------------------------------------------------------- the round trip

  /** The arguments survive printing and parsing. */
  predicate Readable(args: seq<Option<Str>>) {
    forall i :: 0 <= i < |args| ==> Text(args[i]) != [] && NEWLINE !in Text(args[i])
  }

  lemma {:induction false} SpacesConcat(s: Str, t: Str)
    ensures Spaces(s + t) == Spaces(s) + Spaces(t)
    decreases |t|
  {
    if t == [] {
      assert s + t == s;
    } else {
      SpacesConcat(s, t[..|t| - 1]);
      assert (s + t)[..|s + t| - 1] == s + t[..|t| - 1];
    }
  }

  lemma {:induction false} NoSpaces(s: Str)
    requires SPACE !in s
    ensures Spaces(s) == 0
  {
    if s != [] { NoSpaces(s[..|s| - 1]); }
  }

  lemma {:induction false} WordAlone(s: Str)
    requires SPACE !in s
    ensures WordLength(s) == |s|
    ensures Tokens(s) == if s == [] then [] else [s]
  {
    if s != [] { assert s[..|s|] == s && s[|s|..] == []; }
  }

  lemma {:induction false} WordThen(s: Str, t: Str)
    requires t != [] && t[0] == SPACE
    ensures WordLength(s + t) == WordLength(s)
  {
    if s == [] {
      assert s + t == t;
    } else {
      assert (s + t)[1..] == s[1..] + t;
      if s[0] != SPACE { WordThen(s[1..], t); }
    }
  }

  /** One more word after a space is one more token. */
  lemma {:induction false} TokensStep(s: Str, t: Str)
    requires SPACE !in t && t != []
    ensures Tokens(s + ([SPACE] + t)) == Tokens(s) + [t]
    decreases |s|
  {
    var u := [SPACE] + t;
    if s == [] {
      assert s + u == u && u[1..] == t;
      WordAlone(t);
    } else if s[0] == SPACE {
      assert (s + u)[1..] == s[1..] + u;
      TokensStep(s[1..], t);
    } else {
      WordThen(s, u);
      var n := WordLength(s);
      assert (s + u)[..n] == s[..n] && (s + u)[n..] == s[n..] + u;
      TokensStep(s[n..], t);
    }
  }

  ghost predicate Strings(args: seq<Option<Str>>) {
    forall i :: 0 <= i < |args| && args[i].Some? ==> 0 !in args[i].value
  }

  lemma TextPlain(arg: Option<Str>)
    requires arg.Some? ==> 0 !in arg.value
    ensures SPACE !in Text(arg) && 0 !in Text(arg)
  {}

  lemma {:induction false} LineParts(args: seq<Option<Str>>)
    requires Strings(args)
    ensures Spaces(Line(args)) == |args|
    ensures args != [] ==> Line(args) != [] && Line(args)[0] == SPACE
    ensures 0 !in Line(args)
  {
    if args != [] {
      var before, last := args[..|args| - 1], args[|args| - 1];
      LineParts(before);
      TextPlain(last);
      NoSpaces(Text(last));
      SpacesConcat(Line(before) + [SPACE], Text(last));
      SpacesConcat(Line(before), [SPACE]);
      assert Spaces([SPACE]) == 1;
    }
  }

  lemma {:induction false} LineTokens(args: seq<Option<Str>>)
    requires Strings(args) && Readable(args)
    ensures |Tokens(Line(args))| == |args| && NEWLINE !in Line(args)
    ensures forall i :: 0 <= i < |args| ==> Tokens(Line(args))[i] == Text(args[i])
  {
    if args != [] {
      var before, last := args[..|args| - 1], args[|args| - 1];
      LineTokens(before);
      TextPlain(last);
      assert NEWLINE !in Text(last) && Text(last) != [];
      TokensStep(Line(before), Text(last));
      assert Line(before) + [SPACE] + Text(last) == Line(before) + ([SPACE] + Text(last));
    }
  }

  /** Reading from i on, the newline is found right behind a stretch without newlines. */
  lemma {:induction false} NewlineBehind(c: Str, i: nat, nl: nat)
    requires i <= nl < |c| && c[nl] == NEWLINE && NEWLINE !in c[i..nl]
    ensures NewlineAt(c, i) == Some(nl)
    decreases nl - i
  {
    if i < nl {
      assert c[i] == c[i..nl][0];
      assert c[i..nl][1..] == c[i + 1..nl];
      NewlineBehind(c, i + 1, nl);
    }
  }

  lemma TailSplit(c: Str, pos: nat, a: Str, b: Str)
    requires pos <= |c| && c[pos..] == a + b
    ensures pos + |a| <= |c| && c[pos..pos + |a|] == a && c[pos + |a|..] == b
  {
    assert |c| - pos == |a| + |b|;
    assert c[pos..][..|a|] == a && c[pos..][|a|..] == b;
    assert c[pos..][..|a|] == c[pos..pos + |a|] && c[pos..][|a|..] == c[pos + |a|..];
  }

  lemma HeaderSlices(e: Entry, f: Str)
    requires |f| >= HEADER_SIZE && f[..HEADER_SIZE] == Header(e)
    ensures f[0] == e.status && f[1..5] == Le4(e.tstart) && f[5..9] == Le4(e.tend) && f[9..13] == Le4(e.res)
    ensures f[13] == e.funcId
  {
    var h := Header(e);
    assert h[1..5] == Le4(e.tstart) && h[5..9] == Le4(e.tend) && h[9..13] == Le4(e.res);
    assert f[1..5] == h[1..5] && f[5..9] == h[5..9] && f[9..13] == h[9..13];
  }

  /** The printed arguments are read back. */
  lemma ArgsBack(args: seq<Option<Str>>)
    requires Strings(args) && Readable(args)
    ensures ArgsIn(Line(args)) == Some(Texts(args))
  {
    var line := Line(args);
    LineParts(args);
    LineTokens(args);
    if args != [] {
      assert Tokens(line) == Tokens(line[1..]);
      assert Slots(Tokens(line), |args|) == Texts(args);
    }
  }

  /** A readable record that was printed is read back. */
  lemma FrameBack(e: Entry, args: seq<Option<Str>>)
    requires Strings(args) && Readable(args) && e.args == Texts(args)
    ensures IsFrame(Frame(e, args)) && Decode(Frame(e, args)) == Some(e)
  {
    var f := Frame(e, args);
    assert f[..HEADER_SIZE] == Header(e) && f[HEADER_SIZE..] == Line(args);
    LineTokens(args);
    ArgsBack(args);
    HeaderSlices(e, f);
    Le4RoundTrip(e.tstart);
    Le4RoundTrip(e.tend);
    Le4RoundTrip(e.res);
  }

  lemma LineSplit(c: Str, pos: nat, f: Str, rest: Str)
    requires pos <= |c| && c[pos..] == f + [NEWLINE] + rest
    ensures var nl := pos + |f|; nl < |c| && c[pos..nl] == f && c[nl] == NEWLINE && c[nl + 1..] == rest
  {
    TailSplit(c, pos, f + [NEWLINE], rest);
    TailSplit(c, pos, f, [NEWLINE] + rest);
    assert c[pos + |f|..][0] == NEWLINE;
  }

  /** A frame and its newline at the front. */
  lemma FramesFront(c: Str, pos: nat, f: Str, tail: Str)
    requires IsFrame(f) && pos <= |c| && c[pos..] == f + [NEWLINE] + tail
    ensures pos + |f| + 1 <= |c| && c[pos + |f| + 1..] == tail
    ensures var rest := Frames(c, pos + |f| + 1);
            Frames(c, pos) == if rest.Some? then Some([f] + rest.value) else None
  {
    LineSplit(c, pos, f, tail);
    var nl := pos + |f|;
    assert c[pos..nl][HEADER_SIZE..] == c[pos + HEADER_SIZE..nl];
    NewlineBehind(c, pos + HEADER_SIZE, nl);
  }

  function Lines(fs: seq<Str>): Str {
    if fs == [] then [] else fs[0] + [NEWLINE] + Lines(fs[1..])
  }

  ghost predicate AllFrames(fs: seq<Str>) { forall i :: 0 <= i < |fs| ==> IsFrame(fs[i]) }

  lemma FirstLine(fs: seq<Str>, c: Str, pos: nat)
    requires fs != [] && AllFrames(fs) && pos <= |c| && c[pos..] == Lines(fs)
    ensures var next := pos + |fs[0]| + 1;
            && next <= |c| && c[next..] == Lines(fs[1..]) && AllFrames(fs[1..])
            && (Frames(c, next) == Some(fs[1..]) ==> Frames(c, pos) == Some(fs))
  {
    FramesFront(c, pos, fs[0], Lines(fs[1..]));
    assert [fs[0]] + fs[1..] == fs;
  }

  lemma {:induction false} LinesBack(fs: seq<Str>, c: Str, pos: nat)
    requires AllFrames(fs) && pos <= |c| && c[pos..] == Lines(fs)
    ensures Frames(c, pos) == Some(fs)
    decreases |fs|
  {
    if fs != [] {
      FirstLine(fs, c, pos);
      LinesBack(fs[1..], c, pos + |fs[0]| + 1);
    }
  }

  function FramesOf(rs: seq<Record>, start: real): (fs: seq<Str>)
    requires forall r :: r in rs ==> Representable(r, start)
    ensures |fs| == |rs| && forall i :: 0 <= i < |fs| ==> fs[i] == Frame(Printed(rs[i], start), rs[i].args)
  {
    seq(|rs|, i requires 0 <= i < |rs| => Frame(Printed(rs[i], start), rs[i].args))
  }

  lemma {:induction false} EncodedLines(rs: seq<Record>, start: real)
    requires forall r :: r in rs ==> Representable(r, start)
    ensures EncodeAll(rs, start) == Lines(FramesOf(rs, start))
  {
    if rs != [] {
      EncodedLines(rs[1..], start);
      assert FramesOf(rs, start)[1..] == FramesOf(rs[1..], start);
    }
  }

  lemma ParseBack(rs: seq<Record>, start: real)
    requires forall r :: r in rs ==> Representable(r, start) && Readable(r.args)
    ensures Parse(EncodeAll(rs, start)) == Some(PrintedAll(rs, start))
  {
    var c, fs, es := EncodeAll(rs, start), FramesOf(rs, start), PrintedAll(rs, start);
    forall i | 0 <= i < |rs| ensures IsFrame(fs[i]) && Decode(fs[i]) == Some(es[i]) {
      FrameBack(es[i], rs[i].args);
    }
    EncodedLines(rs, start);
    ParseLines(fs, es, c);
  }

  lemma ParseLines(fs: seq<Str>, es: seq<Entry>, c: Str)
    requires |fs| == |es| && forall i :: 0 <= i < |fs| ==> IsFrame(fs[i]) && Decode(fs[i]) == Some(es[i])
    requires c == Lines(fs)
    ensures Parse(c) == Some(es)
  {
    assert c[0..] == c;
    LinesBack(fs, c, 0);
    assert Decoded(fs) == es;
  }

  lemma {:induction false} TokensAreReadable(s: Str)
    requires NEWLINE !in s
    ensures forall t :: t in Tokens(s) ==> t != [] && NEWLINE !in t
  {
    if s != [] {
      if s[0] == SPACE {
        TokensAreReadable(s[1..]);
      } else {
        TokensAreReadable(s[WordLength(s)..]);
      }
    }
  }

  /** Every filled slot holds something that could have been printed. */
  ghost predicate Filled(e: Entry) {
    forall i :: 0 <= i < |e.args| && e.args[i].Some? ==> e.args[i].value != [] && NEWLINE !in e.args[i].value
  }

  /** Whatever the reader fills a slot with is non-empty and free of newlines. */
  lemma DecodedIsFilled(f: Str)
    requires IsFrame(f) && Decode(f).Some?
    ensures Filled(Decode(f).value)
  {
    var area := f[HEADER_SIZE..];
    if area != [] { TokensAreReadable(UpToNul(area[1..])); }
  }

  /** Writing records and reading them back returns them, with spaces turned to underscores and NULL to question
      marks, exactly when every argument is non-empty and free of newlines. */
  lemma RoundTrip(rs: seq<Record>, start: real)
    requires forall r :: r in rs ==> Representable(r, start)
    ensures Parse(EncodeAll(rs, start)) == Some(PrintedAll(rs, start)) <==> forall r :: r in rs ==> Readable(r.args)
  {
    var c, es := EncodeAll(rs, start), PrintedAll(rs, start);
    if forall r :: r in rs ==> Readable(r.args) { ParseBack(rs, start); }
    if Parse(c) == Some(es) {
      forall r | r in rs ensures Readable(r.args) {
        var k :| 0 <= k < |rs| && rs[k] == r;
        DecodedIsFilled(Frames(c, 0).value[k]);
        ReadableIfFilled(es[k], r.args);
      }
    }
  }

  lemma ReadableIfFilled(e: Entry, args: seq<Option<Str>>)
    requires Filled(e) && e.args == Texts(args)
    ensures Readable(args)
  {
    forall i | 0 <= i < |args| ensures Text(args[i]) != [] && NEWLINE !in Text(args[i]) {
      assert e.args[i] == Some(Text(args[i]));
    }
  }
}
