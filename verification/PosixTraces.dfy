/** The translation of descriptor-relative calls into writes at absolute offsets, against the POSIX meaning of the
    calls. */
module PosixTraces {
  import opened Options
  import opened Sequences

  type Path = string
  type Bytes = seq<int>

  datatype Whence = SeekSet | SeekCur | SeekEnd

  /** A call as traced, with its result where that matters; paths are already absolute. */
  datatype Traced =
    | Open(fd: int, path: Path, creat: bool)
    | Lseek(fd: int, offset: int, whence: Whence)
    | Write(fd: int, content: Bytes)
    | Pwrite(fd: int, content: Bytes, offset: int)
    | Close(fd: int)

  /** What replay is given. */
  datatype Replayed =
    | Creat(path: Path)
    | WriteAt(path: Path, content: Bytes, offset: int, append: bool)

  const FILES_TO_IGNORE: set<Path> := {"/dev/null"}

  // ------------------------------------------------------------------- the meaning

  datatype Desc = Desc(path: Path, offset: int)

  /** Open descriptors and file contents. */
  datatype Posix = Posix(fds: map<int, Desc>, files: map<Path, Bytes>)

  /** Writing content at an offset: a gap behind the end reads as zeros, and writing nothing changes nothing. */
  function Put(data: Bytes, content: Bytes, offset: nat): (r: Bytes)
    ensures |r| == if content != [] && offset + |content| > |data| then offset + |content| else |data|
    ensures forall i :: 0 <= i < |r| ==>
              r[i] == if offset <= i < offset + |content| then content[i - offset]
                      else if i < |data| then data[i] else 0
  {
    if content == [] then data
    else
      var n := if offset + |content| > |data| then offset + |content| else |data|;
      seq(n, i requires 0 <= i < n =>
        if offset <= i < offset + |content| then content[i - offset] else if i < |data| then data[i] else 0)
  }

  function Seeked(d: Desc, size: nat, offset: int, whence: Whence): int {
    match whence
    case SeekSet => offset
    case SeekCur => d.offset + offset
    case SeekEnd => size + offset
  }

  /** A call that succeeds; None when it would fail. */
  function Perform(p: Posix, c: Traced): Option<Posix> {
    match c
    case Open(fd, path, creat) =>
      if fd < 0 || (path !in p.files && !creat) then None
      else Some(Posix(p.fds[fd := Desc(path, 0)], if path in p.files then p.files else p.files[path := []]))
    case Lseek(fd, offset, whence) =>
      if fd !in p.fds || p.fds[fd].path !in p.files then None
      else
        var d := p.fds[fd];
        var to := Seeked(d, |p.files[d.path]|, offset, whence);
        if to < 0 then None else Some(p.(fds := p.fds[fd := d.(offset := to)]))
    case Write(fd, content) =>
      if fd !in p.fds || p.fds[fd].path !in p.files || p.fds[fd].offset < 0 then None
      else
        var d := p.fds[fd];
        Some(Posix(p.fds[fd := d.(offset := d.offset + |content|)],
                   p.files[d.path := Put(p.files[d.path], content, d.offset)]))
    case Pwrite(fd, content, offset) =>
      if fd !in p.fds || p.fds[fd].path !in p.files || offset < 0 then None
      else
        var d := p.fds[fd];
        Some(p.(files := p.files[d.path := Put(p.files[d.path], content, offset)]))
    case Close(fd) => if fd !in p.fds then None else Some(p.(fds := p.fds - {fd}))
  }

  /** A call of one of several processes. */
  datatype Line = Line(process: nat, call: Traced)

  /** The descriptors of several processes, and the files they share. */
  datatype World = World(fds: seq<map<int, Desc>>, files: map<Path, Bytes>)

  function PerformLine(w: World, l: Line): Option<World> {
    if l.process >= |w.fds| then None
    else
      var q := Perform(Posix(w.fds[l.process], w.files), l.call);
      if q.None? then None else Some(World(w.fds[l.process := q.value.fds], q.value.files))
  }

  function PerformAll(w: World, ls: seq<Line>): Option<World> {
    if ls == [] then Some(w)
    else
      var v := PerformAll(w, ls[..|ls| - 1]);
      if v.None? then None else PerformLine(v.value, ls[|ls| - 1])
  }

  /** Replaying one translated call: a file that does not exist is made first. */
  function Replay(files: map<Path, Bytes>, r: Replayed): map<Path, Bytes> {
    var there := if r.path in files then files else files[r.path := []];
    match r
    case Creat(path) => there
    case WriteAt(path, content, offset, append) =>
      if offset < 0 then there else there[path := Put(there[path], content, offset)]
  }

  function ReplayAll(files: map<Path, Bytes>, rs: seq<Replayed>): map<Path, Bytes> {
    if rs == [] then files else Replay(ReplayAll(files, rs[..|rs| - 1]), rs[|rs| - 1])
  }

  /** When a call succeeds: an opening, if the file exists or is to be created; any other call, if its descriptor
      is open and, but for closing, its file exists and the offset it asks for is not negative. */
  lemma SucceedsSays(p: Posix, c: Traced)
    ensures Perform(p, c).Some? <==>
            if c.Open? then c.fd >= 0 && (c.creat || c.path in p.files)
            else c.fd in p.fds &&
                 var d := p.fds[c.fd];
                 match c
                 case Lseek(_, offset, SeekSet) => d.path in p.files && offset >= 0
                 case Lseek(_, offset, SeekCur) => d.path in p.files && d.offset + offset >= 0
                 case Lseek(_, offset, SeekEnd) => d.path in p.files && |p.files[d.path]| + offset >= 0
                 case Write(_, _) => d.path in p.files && d.offset >= 0
                 case Pwrite(_, _, offset) => d.path in p.files && offset >= 0
                 case _ => true
  {}

  /** What it does to descriptors and file contents; the others stay. */
  lemma EffectsSay(p: Posix, c: Traced, q: Posix)
    requires Perform(p, c) == Some(q)
    ensures forall fd :: fd != c.fd ==> (fd in q.fds <==> fd in p.fds) && (fd in p.fds ==> q.fds[fd] == p.fds[fd])
    ensures c.fd in q.fds <==> !c.Close?
    ensures c.Open? ==>
              && q.fds[c.fd] == Desc(c.path, 0)
              && q.files == if c.path in p.files then p.files else p.files[c.path := []]
    ensures c.Lseek? ==>
              && q.fds[c.fd] == Desc(p.fds[c.fd].path, match c.whence
                                                       case SeekSet => c.offset
                                                       case SeekCur => p.fds[c.fd].offset + c.offset
                                                       case SeekEnd => |p.files[p.fds[c.fd].path]| + c.offset)
    ensures c.Lseek? || c.Close? ==> q.files == p.files
    ensures c.Write? || c.Pwrite? ==>
              var d, at := p.fds[c.fd], if c.Write? then p.fds[c.fd].offset else c.offset;
              && q.fds[c.fd] == Desc(d.path, if c.Write? then d.offset + |c.content| else d.offset)
              && (forall x :: x != d.path ==>
                    (x in q.files <==> x in p.files) && (x in p.files ==> q.files[x] == p.files[x]))
              && d.path in q.files
              && var (old0, new0) := (p.files[d.path], q.files[d.path]);
                 && (forall i :: 0 <= i < |c.content| ==> at + i < |new0| && new0[at + i] == c.content[i])
                 && (forall i :: 0 <= i < |new0| && (i < at || at + |c.content| <= i) ==>
                       new0[i] == if i < |old0| then old0[i] else 0)
                 && (c.content == [] || at + |c.content| <= |old0| ==> |new0| == |old0|)
                 && (c.content != [] && at + |c.content| > |old0| ==> |new0| == at + |c.content|)
  {}

  // --------------------------------------------------------------- the translation

  /** The descriptor and file size tables of a traced process. */
  datatype Tables = Tables(fds: map<int, Desc>, sizes: map<Path, int>)

  function SizeOf(t: Tables, path: Path): int { if path in t.sizes then t.sizes[path] else 0 }

  /** One call: the new tables and what is appended for replay; None where looking up the size raises an error. */
  function Translate(t: Tables, c: Traced): Option<(Tables, seq<Replayed>)> {
    match c
    case Open(fd, path, creat) =>
      Some((t.(fds := t.fds[fd := Desc(path, 0)]), if creat && path !in FILES_TO_IGNORE then [Creat(path)] else []))
    case Lseek(fd, offset, whence) =>
      if fd !in t.fds then Some((t, []))
      else if whence == SeekEnd && t.fds[fd].path !in t.sizes then None
      else
        var d := t.fds[fd];
        var to := match whence
                  case SeekSet => offset
                  case SeekCur => d.offset + offset
                  case SeekEnd => t.sizes[d.path] + offset;
        Some((t.(fds := t.fds[fd := d.(offset := to)]), []))
    case Write(fd, content) =>
      if fd !in t.fds then Some((t, []))
      else
        var d := t.fds[fd];
        Some(Grown(t.(fds := t.fds[fd := d.(offset := d.offset + |content|)]), d.path, content, d.offset))
    case Pwrite(fd, content, offset) =>
      if fd !in t.fds then Some((t, [])) else Some(Grown(t, t.fds[fd].path, content, offset))
    case Close(fd) => Some((t.(fds := t.fds - {fd}), []))
  }

  /** A write is an append when it ends behind the recorded size, which it then raises. */
  function Grown(t: Tables, path: Path, content: Bytes, offset: int): (Tables, seq<Replayed>) {
    var append := offset + |content| > SizeOf(t, path);
    (if append then t.(sizes := t.sizes[path := offset + |content|]) else t, [WriteAt(path, content, offset, append)])
  }

  /** The descriptor tables of several processes, and the size table they share. */
  datatype SharedTables = SharedTables(fds: seq<map<int, Desc>>, sizes: map<Path, int>)

  /** None also where there is no such process. */
  function TranslateLine(t: SharedTables, l: Line): Option<(SharedTables, seq<Replayed>)> {
    if l.process >= |t.fds| then None
    else
      var r := Translate(Tables(t.fds[l.process], t.sizes), l.call);
      if r.None? then None
      else Some((SharedTables(t.fds[l.process := r.value.0.fds], r.value.0.sizes), r.value.1))
  }

  function TranslateAll(t: SharedTables, ls: seq<Line>): Option<(SharedTables, seq<Replayed>)> {
    if ls == [] then Some((t, []))
    else
      var before := TranslateAll(t, ls[..|ls| - 1]);
      if before.None? then None
      else
        var after := TranslateLine(before.value.0, ls[|ls| - 1]);
        if after.None? then None else Some((after.value.0, before.value.1 + after.value.1))
  }

  /** A dictionary of file sizes, which the processes of a workload share. */
  class SizeTable {
    var sizes: map<Path, int>

    constructor (sizes: map<Path, int>)
      ensures this.sizes == sizes
    {
      this.sizes := sizes;
    }
  }

  /** A process whose trace is read. */
  class Process {
    var fdtable: map<int, Desc>
    const fsztable: SizeTable
    var syscalls: seq<Replayed>

    ghost function State(): Tables
      reads this, fsztable
    {
      Tables(fdtable, fsztable.sizes)
    }

    constructor (fsztable: SizeTable)
      ensures this.fsztable == fsztable && fdtable == map[] && syscalls == []
    {
      this.fsztable := fsztable;
      fdtable, syscalls := map[], [];
    }

    method SetDesc(fd: int, path: Path)
      modifies `fdtable
      ensures fdtable == old(fdtable)[fd := Desc(path, 0)]
    {
      fdtable := fdtable[fd := Desc(path, 0)];
    }

    method GetOffset(fd: int) returns (offset: int)
      ensures offset == if fd in fdtable then fdtable[fd].offset else 0
    {
      offset := if fd in fdtable then fdtable[fd].offset else 0;
    }

    /** False where the size lookup raises an error. */
    method SetOffset(fd: int, offset: int, mode: Whence) returns (ok: bool)
      modifies `fdtable
      ensures ok <==> Translate(old(State()), Lseek(fd, offset, mode)).Some?
      ensures ok ==> Translate(old(State()), Lseek(fd, offset, mode)) == Some((State(), []))
      ensures !ok ==> fdtable == old(fdtable)
      ensures !ok <==> fd in old(fdtable) && mode == SeekEnd && old(fdtable)[fd].path !in fsztable.sizes
      ensures fd !in old(fdtable) ==> fdtable == old(fdtable)
      ensures ok && fd in old(fdtable) ==>
                var d := old(fdtable)[fd];
                fdtable == old(fdtable)[fd := Desc(d.path, match mode
                                                           case SeekSet => offset
                                                           case SeekCur => d.offset + offset
                                                           case SeekEnd => fsztable.sizes[d.path] + offset)]
    {
      ok := true;
      if fd !in fdtable { return; }
      var d := fdtable[fd];
      match mode {
        case SeekSet => fdtable := fdtable[fd := d.(offset := offset)];
        case SeekCur => fdtable := fdtable[fd := d.(offset := d.offset + offset)];
        case SeekEnd =>
          if d.path !in fsztable.sizes { return false; }
          fdtable := fdtable[fd := d.(offset := fsztable.sizes[d.path] + offset)];
      }
    }

    method GetSize(path: Path) returns (size: int)
      ensures size == SizeOf(State(), path)
    {
      size := if path in fsztable.sizes then fsztable.sizes[path] else 0;
    }

    /** Syscall.add_syscall; false where it raises an error. */
    method AddSyscall(c: Traced) returns (ok: bool)
      modifies this, fsztable
      ensures ok <==> Translate(old(State()), c).Some?
      ensures ok ==> State() == Translate(old(State()), c).value.0
                     && syscalls == old(syscalls) + Translate(old(State()), c).value.1
      ensures !ok ==> State() == old(State()) && syscalls == old(syscalls)
      ensures c.Open? ==> syscalls == old(syscalls) + if c.creat && c.path != "/dev/null" then [Creat(c.path)] else []
      ensures c.Lseek? || c.Close? || (!c.Open? && c.fd !in old(fdtable)) ==> syscalls == old(syscalls)
      ensures (c.Write? || c.Pwrite?) && c.fd in old(fdtable) ==>
                var d := old(fdtable)[c.fd];
                var offset := if c.Write? then d.offset else c.offset;
                var size := if d.path in old(fsztable.sizes) then old(fsztable.sizes)[d.path] else 0;
                && syscalls == old(syscalls) + [WriteAt(d.path, c.content, offset, offset + |c.content| > size)]
                && fsztable.sizes == (if offset + |c.content| > size
                                      then old(fsztable.sizes)[d.path := offset + |c.content|]
                                      else old(fsztable.sizes))
                && fdtable == (if c.Write? then old(fdtable)[c.fd := Desc(d.path, d.offset + |c.content|)]
                               else old(fdtable))
      ensures c.Open? ==> fdtable == old(fdtable)[c.fd := Desc(c.path, 0)]
      ensures c.Close? ==> fdtable == old(fdtable) - {c.fd}
    {
      ok := true;
      match c {
        case Open(fd, path, creat) =>
          SetDesc(fd, path);
          if creat && path !in FILES_TO_IGNORE {
            syscalls := syscalls + [Creat(path)];
          }
        case Lseek(fd, offset, whence) =>
          ok := SetOffset(fd, offset, whence);
        case Close(fd) =>
          if fd in fdtable { fdtable := fdtable - {fd}; }
        case Write(fd, content) =>
          if fd in fdtable {
            var path := fdtable[fd].path;
            var offset := GetOffset(fd);
            var done := SetOffset(fd, offset + |content|, SeekSet);
            AddWrite(path, content, offset);
          }
        case Pwrite(fd, content, offset) =>
          if fd in fdtable {
            AddWrite(fdtable[fd].path, content, offset);
          }
      }
    }

    method AddWrite(path: Path, content: Bytes, offset: int)
      modifies fsztable, `syscalls
      ensures State() == Grown(old(State()), path, content, offset).0
      ensures syscalls == old(syscalls) + Grown(old(State()), path, content, offset).1
    {
      var curSize := GetSize(path);
      var append := false;
      if offset + |content| > curSize {
        append := true;
        fsztable.sizes := fsztable.sizes[path := offset + |content|];
      }
      syscalls := syscalls + [WriteAt(path, content, offset, append)];
    }
  }

  ghost function Fds(ps: seq<Process>): (r: seq<map<int, Desc>>)
    reads ps`fdtable
    ensures |r| == |ps| && forall i :: 0 <= i < |r| ==> r[i] == ps[i].fdtable
  {
    if ps == [] then [] else Fds(ps[..|ps| - 1]) + [ps[|ps| - 1].fdtable]
  }

  /** The processes of an application, with one size table for all of them. A program of one process is the case of
      one. */
  class Workload {
    const processes: seq<Process>
    const fsztable: SizeTable
    /** The calls of all processes, in time order. */
    var syscalls: seq<Replayed>

    ghost predicate Valid()
    {
      NoDup(processes) && forall p :: p in processes ==> p.fsztable == fsztable
    }

    ghost function State(): SharedTables
      reads processes`fdtable, fsztable
    {
      SharedTables(Fds(processes), fsztable.sizes)
    }

    constructor (n: nat, sizes: map<Path, int>)
      ensures Valid() && syscalls == [] && State() == SharedTables(seq(n, _ => map[]), sizes)
      ensures fresh(fsztable) && forall p :: p in processes ==> fresh(p)
    {
      var table := new SizeTable(sizes);
      var ps: seq<Process> := [];
      for i := 0 to n
        invariant |ps| == i && NoDup(ps) && forall k :: 0 <= k < i ==> fresh(ps[k]) && ps[k].fsztable == table
        invariant forall k :: 0 <= k < i ==> ps[k].fdtable == map[]
        invariant fresh(table) && table.sizes == sizes
      {
        var p := new Process(table);
        ps := ps + [p];
      }
      processes, fsztable, syscalls := ps, table, [];
    }

    /** Adds one line to the process it comes from. */
    method AddLine(l: Line) returns (ok: bool)
      requires Valid()
      modifies this, processes, fsztable
      ensures ok <==> TranslateLine(old(State()), l).Some?
      ensures ok ==> State() == TranslateLine(old(State()), l).value.0
                     && syscalls == old(syscalls) + TranslateLine(old(State()), l).value.1
      ensures !ok ==> State() == old(State()) && syscalls == old(syscalls)
    {
      ok := l.process < |processes|;
      if ok {
        var p := processes[l.process];
        var before := |p.syscalls|;
        ok := p.AddSyscall(l.call);
        syscalls := syscalls + p.syscalls[before..];
      }
    }

    /** Reads the lines of all processes; false when one of them raises an error. */
    method CreateSyscalls(ls: seq<Line>) returns (ok: bool)
      requires Valid() && syscalls == []
      modifies this, processes, fsztable
      ensures ok <==> TranslateAll(old(State()), ls).Some?
      ensures ok ==> TranslateAll(old(State()), ls) == Some((State(), syscalls))
    {
      for i := 0 to |ls|
        invariant TranslateAll(old(State()), ls[..i]) == Some((State(), syscalls))
      {
        assert ls[..i + 1][..i] == ls[..i];
        ok := AddLine(ls[i]);
        if !ok {
          NeverTranslated(old(State()), ls, i + 1);
          return;
        }
      }
      assert ls[..|ls|] == ls;
      ok := true;
    }
  }

  lemma {:induction false} NeverTranslated(t: SharedTables, ls: seq<Line>, n: nat)
    requires n <= |ls| && TranslateAll(t, ls[..n]).None?
    ensures TranslateAll(t, ls).None?
    decreases |ls|
  {
    if n < |ls| {
      assert ls[..|ls| - 1][..n] == ls[..n];
      NeverTranslated(t, ls[..|ls| - 1], n);
    } else {
      assert ls[..n] == ls;
    }
  }

  // ------------------------------------------------------------------ the simulation

  /** The tables describe the actual state: same descriptors, and the size of every file. */
  ghost predicate Agree(t: Tables, p: Posix) {
    && t.fds == p.fds
    && (forall path :: path in t.sizes ==> path in p.files)
    && (forall path :: path in p.files ==> SizeOf(t, path) == |p.files[path]|)
    && FILES_TO_IGNORE <= p.files.Keys
  }

  /** What a caller has to avoid: writing nothing behind the end of a file, and seeking from the end of a file without
      recorded size. */
  ghost predicate Proper(t: Tables, p: Posix, c: Traced) {
    match c
    case Lseek(fd, offset, whence) => whence == SeekEnd && fd in p.fds ==> p.fds[fd].path in t.sizes
    case Write(fd, content) =>
      content == [] && fd in p.fds && p.fds[fd].path in p.files ==> p.fds[fd].offset <= |p.files[p.fds[fd].path]|
    case Pwrite(fd, content, offset) =>
      content == [] && fd in p.fds && p.fds[fd].path in p.files ==> offset <= |p.files[p.fds[fd].path]|
    case _ => true
  }

  /** The translated calls, replayed, have the effect of the call, and a write is an append exactly when the file
      grows. */
  ghost predicate Faithful(files: map<Path, Bytes>, rs: seq<Replayed>, files': map<Path, Bytes>) {
    && ReplayAll(files, rs) == files'
    && forall i :: 0 <= i < |rs| && rs[i].WriteAt? ==>
         rs[i].path in files && rs[i].path in files' && (rs[i].append <==> |files'[rs[i].path]| > |files[rs[i].path]|)
  }

  lemma ReplayOne(files: map<Path, Bytes>, r: Replayed)
    ensures ReplayAll(files, [r]) == Replay(files, r)
  {
    assert [r][..0] == [];
    assert ReplayAll(files, [r][..0]) == files;
  }

  /** Whether translation succeeds, keeps the agreement and is faithful. */
  ghost predicate Tracks(t: Tables, p: Posix, c: Traced)
    requires Perform(p, c).Some?
  {
    var q := Perform(p, c).value;
    Translate(t, c).Some? && Agree(Translate(t, c).value.0, q) && Faithful(p.files, Translate(t, c).value.1, q.files)
  }

  /** For a successful call from agreeing states, it does so exactly when the call is proper. */
  lemma StepExact(t: Tables, p: Posix, c: Traced)
    requires Agree(t, p) && Perform(p, c).Some?
    ensures Tracks(t, p, c) <==> Proper(t, p, c)
  {
    match c {
      case Open(fd, path, creat) => OpenExact(t, p, c);
      case Lseek(fd, offset, whence) => SeekExact(t, p, c);
      case Write(fd, content) => OffsetWriteExact(t, p, c);
      case Pwrite(fd, content, offset) =>
        WriteExact(t, p, p.fds[fd].path, content, offset);
      case Close(fd) => assert Perform(p, c).value.files == p.files;
    }
  }

  lemma OpenExact(t: Tables, p: Posix, c: Traced)
    requires Agree(t, p) && c.Open? && Perform(p, c).Some?
    ensures Tracks(t, p, c)
  {
    if c.creat { ReplayOne(p.files, Creat(c.path)); }
  }

  lemma SeekExact(t: Tables, p: Posix, c: Traced)
    requires Agree(t, p) && c.Lseek? && Perform(p, c).Some?
    ensures Tracks(t, p, c) <==> Proper(t, p, c)
  {}

  lemma OffsetWriteExact(t: Tables, p: Posix, c: Traced)
    requires Agree(t, p) && c.Write? && Perform(p, c).Some?
    ensures Tracks(t, p, c) <==> Proper(t, p, c)
  {
    var fds := Perform(p, c).value.fds;
    WriteExact(t.(fds := fds), p.(fds := fds), p.fds[c.fd].path, c.content, p.fds[c.fd].offset);
  }

  lemma WriteExact(t: Tables, p: Posix, path: Path, content: Bytes, offset: nat)
    requires Agree(t, p) && path in p.files
    ensures var (t', rs) := Grown(t, path, content, offset);
            var q := p.(files := p.files[path := Put(p.files[path], content, offset)]);
            Agree(t', q) && Faithful(p.files, rs, q.files) <==> (content == [] ==> offset <= |p.files[path]|)
  {
    var (t', rs) := Grown(t, path, content, offset);
    var files' := p.files[path := Put(p.files[path], content, offset)];
    ReplayOne(p.files, rs[0]);
    assert |files'[path]| == |Put(p.files[path], content, offset)|;
  }

  /** The tables of all processes describe the actual state. */
  ghost predicate AgreeAll(t: SharedTables, w: World) {
    t.fds == w.fds && Agree(Tables(map[], t.sizes), Posix(map[], w.files))
  }

  ghost predicate ProperLine(t: SharedTables, w: World, l: Line) {
    l.process < |t.fds| && l.process < |w.fds| ==>
      Proper(Tables(t.fds[l.process], t.sizes), Posix(w.fds[l.process], w.files), l.call)
  }

  /** Whether translation of the line succeeds, keeps the agreement of all processes and is faithful. */
  ghost predicate TracksLine(t: SharedTables, w: World, l: Line)
    requires PerformLine(w, l).Some?
  {
    var v := PerformLine(w, l).value;
    && TranslateLine(t, l).Some? && AgreeAll(TranslateLine(t, l).value.0, v)
    && Faithful(w.files, TranslateLine(t, l).value.1, v.files)
  }

  /** One process's call keeps the tables of all right exactly when it is proper. */
  lemma LineExact(t: SharedTables, w: World, l: Line)
    requires AgreeAll(t, w) && PerformLine(w, l).Some?
    ensures TracksLine(t, w, l) <==> ProperLine(t, w, l)
  {
    var one, p := Tables(t.fds[l.process], t.sizes), Posix(w.fds[l.process], w.files);
    StepExact(one, p, l.call);
    if Translate(one, l.call).Some? {
      PutBack(t.fds, l.process, Translate(one, l.call).value.0.fds, Perform(p, l.call).value.fds);
    }
  }

  lemma PutBack<T>(s: seq<T>, i: nat, x: T, y: T)
    requires i < |s|
    ensures s[i := x] == s[i := y] <==> x == y
  {
    assert s[i := x][i] == x && s[i := y][i] == y;
  }

  /** Every call of the trace is proper when its turn comes. */
  ghost predicate ProperRun(t: SharedTables, w: World, ls: seq<Line>) {
    if ls == [] then true
    else
      var before := ls[..|ls| - 1];
      && ProperRun(t, w, before)
      && (TranslateAll(t, before).Some? && PerformAll(w, before).Some? ==>
            ProperLine(TranslateAll(t, before).value.0, PerformAll(w, before).value, ls[|ls| - 1]))
  }

  lemma {:induction false} ReplayConcat(files: map<Path, Bytes>, a: seq<Replayed>, b: seq<Replayed>)
    ensures ReplayAll(files, a + b) == ReplayAll(ReplayAll(files, a), b)
    decreases |b|
  {
    if b == [] {
      assert a + b == a;
    } else {
      ReplayConcat(files, a, b[..|b| - 1]);
      assert (a + b)[..|a + b| - 1] == a + b[..|b| - 1];
    }
  }

  /** Translating a whole successful and proper trace of several processes and replaying the result gives the
      files that the calls gave. */
  lemma {:induction false} TraceExact(t: SharedTables, w: World, ls: seq<Line>)
    requires AgreeAll(t, w) && PerformAll(w, ls).Some? && ProperRun(t, w, ls)
    ensures TranslateAll(t, ls).Some?
    ensures var (t', rs) := TranslateAll(t, ls).value;
            AgreeAll(t', PerformAll(w, ls).value) && ReplayAll(w.files, rs) == PerformAll(w, ls).value.files
    decreases |ls|
  {
    if ls != [] {
      var before, l := ls[..|ls| - 1], ls[|ls| - 1];
      TraceExact(t, w, before);
      var (t', rs) := TranslateAll(t, before).value;
      LineExact(t', PerformAll(w, before).value, l);
      ReplayConcat(w.files, rs, TranslateLine(t', l).value.1);
    }
  }

  lemma {:induction false} BeforeToo(t: SharedTables, w: World, ls: seq<Line>, n: nat)
    requires n <= |ls| && PerformAll(w, ls).Some? && ProperRun(t, w, ls)
    ensures PerformAll(w, ls[..n]).Some? && ProperRun(t, w, ls[..n])
    decreases |ls|
  {
    if n < |ls| {
      assert ls[..|ls| - 1][..n] == ls[..n];
      BeforeToo(t, w, ls[..|ls| - 1], n);
    } else {
      assert ls[..n] == ls;
    }
  }

  /** What is handed over for replay, line by line: for an opening that creates its file the creation, unless it
      is ignored; for a write exactly one write, to the file of the descriptor, of the same content, at the
      offset of the descriptor or of the call, as an append when it ends behind the end of the file; for all
      other calls nothing. */
  lemma TraceCalls(t: SharedTables, w: World, ls: seq<Line>, i: nat)
    requires AgreeAll(t, w) && PerformAll(w, ls).Some? && ProperRun(t, w, ls) && i < |ls|
    ensures PerformAll(w, ls[..i]).Some? && TranslateAll(t, ls[..i]).Some? && TranslateAll(t, ls[..i + 1]).Some?
    ensures TranslateAll(t, ls[..0]).value.1 == [] && ls[..|ls|] == ls
    ensures var v, c := PerformAll(w, ls[..i]).value, ls[i].call;
            && ls[i].process < |v.fds|
            && var fds := v.fds[ls[i].process];
            && (!c.Open? ==> c.fd in fds) && (!c.Open? && !c.Close? ==> fds[c.fd].path in v.files)
            && TranslateAll(t, ls[..i + 1]).value.1 == TranslateAll(t, ls[..i]).value.1 +
               match c
               case Open(_, path, creat) => if creat && path != "/dev/null" then [Creat(path)] else []
               case Write(fd, content) =>
                 [WriteAt(fds[fd].path, content, fds[fd].offset, fds[fd].offset + |content| > |v.files[fds[fd].path]|)]
               case Pwrite(fd, content, offset) =>
                 [WriteAt(fds[fd].path, content, offset, offset + |content| > |v.files[fds[fd].path]|)]
               case _ => []
  {
    OneLine(t, w, ls, i);
    LineCalls(TranslateAll(t, ls[..i]).value.0, PerformAll(w, ls[..i]).value, ls[i]);
  }

  /** The line i, from what the lines before it have left. */
  lemma OneLine(t: SharedTables, w: World, ls: seq<Line>, i: nat)
    requires AgreeAll(t, w) && PerformAll(w, ls).Some? && ProperRun(t, w, ls) && i < |ls|
    ensures PerformAll(w, ls[..i]).Some? && TranslateAll(t, ls[..i]).Some? && TranslateAll(t, ls[..i + 1]).Some?
    ensures var (v, (t', rs)) := (PerformAll(w, ls[..i]).value, TranslateAll(t, ls[..i]).value);
            && AgreeAll(t', v) && PerformLine(v, ls[i]).Some? && ProperLine(t', v, ls[i])
            && TranslateLine(t', ls[i]).Some?
            && TranslateAll(t, ls[..i + 1]).value.1 == rs + TranslateLine(t', ls[i]).value.1
  {
    BeforeToo(t, w, ls, i);
    BeforeToo(t, w, ls, i + 1);
    assert ls[..i + 1][..i] == ls[..i];
    TraceExact(t, w, ls[..i]);
    TraceExact(t, w, ls[..i + 1]);
  }

  lemma LineCalls(t: SharedTables, w: World, l: Line)
    requires AgreeAll(t, w) && PerformLine(w, l).Some? && ProperLine(t, w, l)
    ensures l.process < |w.fds| && TranslateLine(t, l).Some?
    ensures var fds := w.fds[l.process];
            && (!l.call.Open? ==> l.call.fd in fds)
            && (!l.call.Open? && !l.call.Close? ==> fds[l.call.fd].path in w.files)
            && TranslateLine(t, l).value.1 ==
               match l.call
               case Open(_, path, creat) => if creat && path != "/dev/null" then [Creat(path)] else []
               case Write(fd, content) =>
                 [WriteAt(fds[fd].path, content, fds[fd].offset, fds[fd].offset + |content| > |w.files[fds[fd].path]|)]
               case Pwrite(fd, content, offset) =>
                 [WriteAt(fds[fd].path, content, offset, offset + |content| > |w.files[fds[fd].path]|)]
               case _ => []
  {
    LineExact(t, w, l);
  }

  /** Without that, it can go wrong: after an empty write behind the end of a file, seeking from its end leads to the
      recorded end and not to the actual one. */
  const BAD_TRACE: seq<Traced> := [Open(3, "f", true), Pwrite(3, [], 5), Lseek(3, 0, SeekEnd), Write(3, [1])]
  /** A file just made has no recorded size. */
  const UNSIZED_TRACE: seq<Traced> := [Open(3, "f", true), Lseek(3, 0, SeekEnd)]
  const NO_FILES: map<Path, Bytes> := map["/dev/null" := []]
  const FRESH_WORLD: World := World([map[]], NO_FILES)
  const FRESH_TABLES: SharedTables := SharedTables([map[]], map[])

  /** The trace of a single process. */
  function Alone(cs: seq<Traced>): (ls: seq<Line>)
    ensures |ls| == |cs| && forall i :: 0 <= i < |ls| ==> ls[i] == Line(0, cs[i])
  {
    seq(|cs|, i requires 0 <= i < |cs| => Line(0, cs[i]))
  }

  lemma Single<T>(s: seq<T>)
    requires |s| == 1
    ensures forall x {:trigger s[0 := x]} :: s[0 := x] == [x]
  {}

  lemma PerformMore(w: World, cs: seq<Traced>, c: Traced)
    requires |w.fds| == 1 && PerformAll(w, Alone(cs)).Some? && |PerformAll(w, Alone(cs)).value.fds| == 1
    ensures var v := PerformAll(w, Alone(cs)).value;
            var q := Perform(Posix(v.fds[0], v.files), c);
            PerformAll(w, Alone(cs + [c])) == if q.None? then None else Some(World([q.value.fds], q.value.files))
  {
    assert Alone(cs + [c])[..|cs|] == Alone(cs);
    Single(PerformAll(w, Alone(cs)).value.fds);
  }

  lemma TranslateMore(t: SharedTables, cs: seq<Traced>, c: Traced)
    requires |t.fds| == 1 && TranslateAll(t, Alone(cs)).Some? && |TranslateAll(t, Alone(cs)).value.0.fds| == 1
    ensures var (t', rs) := TranslateAll(t, Alone(cs)).value;
            var r := Translate(Tables(t'.fds[0], t'.sizes), c);
            TranslateAll(t, Alone(cs + [c])) ==
            if r.None? then None else Some((SharedTables([r.value.0.fds], r.value.0.sizes), rs + r.value.1))
  {
    assert Alone(cs + [c])[..|cs|] == Alone(cs);
    Single(TranslateAll(t, Alone(cs)).value.0.fds);
  }

  lemma BadTraceActual(w: World)
    requires w == FRESH_WORLD
    ensures PerformAll(w, Alone(BAD_TRACE)).Some?
    ensures var files := PerformAll(w, Alone(BAD_TRACE)).value.files; "f" in files && |files["f"]| == 1
  {
    var b := BAD_TRACE;
    PerformMore(w, [], b[0]);
    PerformMore(w, [] + [b[0]], b[1]);
    PerformMore(w, [] + [b[0]] + [b[1]], b[2]);
    PerformMore(w, [] + [b[0]] + [b[1]] + [b[2]], b[3]);
    assert [] + [b[0]] + [b[1]] + [b[2]] + [b[3]] == b;
  }

  lemma BadTraceTranslated(t: SharedTables)
    requires t == FRESH_TABLES
    ensures TranslateAll(t, Alone(BAD_TRACE)).Some?
    ensures var rs := TranslateAll(t, Alone(BAD_TRACE)).value.1;
            rs != [] && rs[|rs| - 1] == WriteAt("f", [1], 5, true)
  {
    var b := BAD_TRACE;
    TranslateMore(t, [], b[0]);
    TranslateMore(t, [] + [b[0]], b[1]);
    TranslateMore(t, [] + [b[0]] + [b[1]], b[2]);
    TranslateMore(t, [] + [b[0]] + [b[1]] + [b[2]], b[3]);
    assert [] + [b[0]] + [b[1]] + [b[2]] + [b[3]] == b;
  }

  lemma EmptyWriteMisleads()
    ensures AgreeAll(FRESH_TABLES, FRESH_WORLD)
    ensures PerformAll(FRESH_WORLD, Alone(BAD_TRACE)).Some? && TranslateAll(FRESH_TABLES, Alone(BAD_TRACE)).Some?
    ensures ReplayAll(NO_FILES, TranslateAll(FRESH_TABLES, Alone(BAD_TRACE)).value.1)
            != PerformAll(FRESH_WORLD, Alone(BAD_TRACE)).value.files
  {
    BadTraceActual(FRESH_WORLD);
    BadTraceTranslated(FRESH_TABLES);
    LastReplayed(NO_FILES, TranslateAll(FRESH_TABLES, Alone(BAD_TRACE)).value.1);
  }

  /** Seeking from the end of a file just made succeeds, but raises an error in the translation. */
  lemma UnsizedSeekFails()
    ensures PerformAll(FRESH_WORLD, Alone(UNSIZED_TRACE)).Some?
    ensures TranslateAll(FRESH_TABLES, Alone(UNSIZED_TRACE)).None?
  {
    var b := UNSIZED_TRACE;
    PerformMore(FRESH_WORLD, [], b[0]);
    PerformMore(FRESH_WORLD, [] + [b[0]], b[1]);
    TranslateMore(FRESH_TABLES, [], b[0]);
    TranslateMore(FRESH_TABLES, [] + [b[0]], b[1]);
    assert [] + [b[0]] + [b[1]] == b;
  }

  /** After a last write, its file reaches to the end of it. */
  lemma LastReplayed(files: map<Path, Bytes>, rs: seq<Replayed>)
    requires rs != []
    ensures var r := rs[|rs| - 1];
            r.WriteAt? && r.content != [] && r.offset >= 0 ==>
              r.path in ReplayAll(files, rs) && |ReplayAll(files, rs)[r.path]| >= r.offset + |r.content|
  {}
}
