/** What is written of a record, byte by byte, and what a reader gets back, field by field. */
module RecordTerms {
  import opened Options
  import opened RecordCodec

  /** n is the time t in millionths of a second, rounded towards zero. */
  ghost predicate Millionths(n: int, t: real) {
    && (t >= 0.0 ==> n >= 0 && n as real * 0.000001 <= t < (n + 1) as real * 0.000001)
    && (t <= 0.0 ==> n <= 0 && (n - 1) as real * 0.000001 < t <= n as real * 0.000001)
  }

  /** The text is the argument with its spaces as underscores, or three question marks for NULL. */
  ghost predicate Prints(text: Str, arg: Option<Str>) {
    && (arg.None? ==> text == [63, 63, 63])
    && (arg.Some? ==> |text| == |arg.value| &&
                      forall j :: 0 <= j < |text| ==> text[j] == if arg.value[j] == 32 then 95 else arg.value[j])
  }

  /** The number in four bytes, least significant first, in two's complement. */
  function Number(b: seq<Byte>): int
    requires |b| == 4
  {
    var u := b[0] as int + 0x100 * b[1] as int + 0x1_0000 * b[2] as int + 0x100_0000 * b[3] as int;
    if u >= 0x8000_0000 then u - 0x1_0000_0000 else u
  }

  // --------------------------------------------------------------------- the vocabulary

  lemma TicksSay(t: real, start: real)
    ensures Millionths(Ticks(t, start), t - start)
  {
    var x := (t - start) / 0.000001;
    assert x * 0.000001 == t - start;
    if t >= start { FloorWithin(x); } else { FloorWithin(-x); }
  }

  lemma FloorWithin(x: real)
    ensures x.Floor as real <= x < (x.Floor + 1) as real
  {}

  /** Times fit when they lie within 2^31 microseconds of the start; strings hold no zero byte. */
  lemma RepresentableSays(r: Record, start: real)
    ensures Representable(r, start) <==>
            && -2147.483649 < r.tstart - start < 2147.483648 && -2147.483649 < r.tend - start < 2147.483648
            && forall i :: 0 <= i < |r.args| && r.args[i].Some? ==> 0 !in r.args[i].value
  {
    TicksSay(r.tstart, start);
    TicksSay(r.tend, start);
  }

  /** Arguments are readable when none is an empty string and none holds a newline; NULL is readable. */
  lemma ReadableSays(args: seq<Option<Str>>)
    ensures Readable(args) <==>
            forall i :: 0 <= i < |args| && args[i].Some? ==> args[i].value != [] && 10 !in args[i].value
  {
    forall i | 0 <= i < |args| && args[i].Some?
      ensures (Text(args[i]) != [] && NEWLINE !in Text(args[i])) <==> (args[i].value != [] && 10 !in args[i].value)
    {
      var s, t := args[i].value, Text(args[i]);
      assert |s| == |t| && forall j :: 0 <= j < |s| ==> (s[j] == 10 <==> t[j] == 10);
      assert 10 in s <==> exists j :: 0 <= j < |s| && s[j] == 10;
    }
  }

  lemma NumberBack(n: Int32)
    ensures Number(Le4(n)) == n
  {
    var u := if n < 0 then n + 0x1_0000_0000 else n;
    assert Digits(u, 4) == [u % 256] + Digits(u / 256, 3);
    assert Digits(u / 256, 3) == [u / 256 % 256] + Digits(u / 256 / 256, 2);
    assert Digits(u / 256 / 256, 2) == [u / 256 / 256 % 256] + Digits(u / 256 / 256 / 256, 1);
    assert Digits(u / 256 / 256 / 256, 1) == [u / 256 / 256 / 256 % 256] + Digits(u / 256 / 256 / 256 / 256, 0);
  }

  // ------------------------------------------------------------------------- the bytes

  /** A record without arguments takes fifteen bytes: its status, the start time, the end time and the result in
      four bytes each, the function, and a newline. */
  lemma BareBytes(r: Record, start: real)
    requires Representable(r, start) && r.args == []
    ensures var b := Encode(r, start);
            && |b| == 15 && b[0] == r.status && b[13] == r.funcId && b[14] == 10
            && Millionths(Number(b[1..5]), r.tstart - start) && Millionths(Number(b[5..9]), r.tend - start)
            && Number(b[9..13]) == r.res
  {
    var b, e := Encode(r, start), Printed(r, start);
    assert b == Header(e) + [NEWLINE];
    HeaderSlices(e, b);
    NumberBack(e.tstart);
    NumberBack(e.tend);
    NumberBack(e.res);
    TicksSay(r.tstart, start);
    TicksSay(r.tend, start);
  }

  /** Every argument adds, in front of the newline, a space and its text. */
  lemma LastArgument(r: Record, start: real, arg: Option<Str>, text: Str)
    requires Representable(r, start) && (arg.Some? ==> 0 !in arg.value) && Prints(text, arg)
    ensures Representable(r.(args := r.args + [arg]), start)
    ensures var b := Encode(r, start); Encode(r.(args := r.args + [arg]), start) == b[..|b| - 1] + [32] + text + [10]
  {
    var more, h := r.args + [arg], Header(Printed(r, start));
    assert text == Text(arg);
    assert more[..|more| - 1] == r.args;
    var b := Encode(r, start);
    assert b[..|b| - 1] == h + Line(r.args);
    assert h + (Line(r.args) + [32] + text) == h + Line(r.args) + [32] + text;
  }

  // ------------------------------------------------------------------------ the fields

  /** Status, function and result are those of the record, the times are counted from the start, and the
      arguments are those traced, as they print. */
  ghost predicate Tells(e: Entry, r: Record, start: real) {
    && e.funcId == r.funcId && e.res == r.res && |e.args| == |r.args|
    && Millionths(e.tstart, r.tstart - start) && Millionths(e.tend, r.tend - start)
    && forall k :: 0 <= k < |r.args| ==> e.args[k].Some? && Prints(e.args[k].value, r.args[k])
  }

  lemma PrintedTells(r: Record, start: real, e: Entry)
    requires Representable(r, start) && e == Printed(r, start).(status := e.status)
    ensures Tells(e, r, start)
  {
    TicksSay(r.tstart, start);
    TicksSay(r.tend, start);
    forall k | 0 <= k < |r.args| ensures e.args[k].Some? && Prints(e.args[k].value, r.args[k]) {
      assert e.args[k] == Some(Text(r.args[k]));
    }
  }

  /** Records that were written are read with all their fields. */
  lemma ReadBack(rs: seq<Record>, start: real)
    requires forall r :: r in rs ==> Representable(r, start) && Readable(r.args)
    ensures var es := Parse(EncodeAll(rs, start));
            && es.Some? && |es.value| == |rs|
            && forall i :: 0 <= i < |rs| ==> es.value[i].status == rs[i].status && Tells(es.value[i], rs[i], start)
  {
    RoundTrip(rs, start);
    var es := PrintedAll(rs, start);
    forall i | 0 <= i < |rs| ensures es[i].status == rs[i].status && Tells(es[i], rs[i], start) {
      assert rs[i] in rs;
      PrintedTells(rs[i], start, es[i]);
    }
  }

  // ------------------------------------------------------------------------ the tokens

  /** The tokens of a string are those in front of its last space and what is behind, if that is not empty. */
  lemma TokensSay(s: Str, t: Str)
    requires 32 !in t
    ensures Tokens(t) == if t == [] then [] else [t]
    ensures Tokens(s + [32] + t) == Tokens(s) + if t == [] then [] else [t]
  {
    WordAlone(t);
    if t == [] {
      SpaceBehind(s);
      assert s + [32] + t == s + [32] && Tokens(s) + [] == Tokens(s);
    } else {
      TokensStep(s, t);
      assert s + [32] + t == s + ([SPACE] + t);
    }
  }

  /** A record has as many argument slots as spaces; what is behind the first byte, up to a zero byte, fills them
      with its tokens, which must not be more. Without spaces there are no arguments, whatever there is. */
  lemma SlotsSay(area: Str, n: nat, tokens: seq<Str>)
    requires n == |set i: nat | i < |area| && area[i] == 32|
    requires area != [] ==> tokens == Tokens(UpToNul(area[1..]))
    ensures n == 0 ==> ArgsIn(area) == Some([])
    ensures n > 0 && |tokens| > n ==> ArgsIn(area) == None
    ensures n > 0 && |tokens| <= n ==>
              && ArgsIn(area).Some? && |ArgsIn(area).value| == n
              && forall i :: 0 <= i < n ==> ArgsIn(area).value[i] == if i < |tokens| then Some(tokens[i]) else None
  {
    SpacesSay(area);
    assert SpacesAt(area) == set i: nat | i < |area| && area[i] == 32;
    if area == [] { assert SpacesAt(area) == {}; }
  }

  ghost function SpacesAt(s: Str): set<nat> { set i: nat | i < |s| && s[i] == 32 }

  lemma {:induction false} SpacesSay(s: Str)
    ensures Spaces(s) == |SpacesAt(s)|
  {
    if s == [] {
      assert SpacesAt(s) == {};
    } else {
      var n := |s| - 1;
      SpacesSay(s[..n]);
      assert SpacesAt(s) == if s[n] == 32 then SpacesAt(s[..n]) + {n} else SpacesAt(s[..n]);
    }
  }

  lemma {:induction false} SpaceBehind(s: Str)
    ensures Tokens(s + [32]) == Tokens(s)
    decreases |s|
  {
    if s == [] {
      assert s + [32] == [32] && [32 as Byte][1..] == [];
    } else if s[0] == SPACE {
      assert (s + [32])[1..] == s[1..] + [32];
      SpaceBehind(s[1..]);
    } else {
      WordThen(s, [32]);
      var n := WordLength(s);
      assert (s + [32])[..n] == s[..n] && (s + [32])[n..] == s[n..] + [32];
      SpaceBehind(s[n..]);
    }
  }
}
