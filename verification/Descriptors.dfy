/**
 The descriptor table of one process, and `open`, `read` and `close` on it.
 The specification functions act on values; class `Pcb` is proved to compute them; `RunKeepsCursors`
 is about every interleaving of calls.
 */
module Descriptors {
  import opened Bytes
  import opened Basics
  import opened Text
  import opened FileSystem

  const NUM_FILE_DESCRIPTOR := 8

  datatype Ops = NoOps | TerminalOps | RtcOps | DirectoryOps | FileOps

  datatype Fd = Fd(fileName: seq<byte>, filePosition: nat, flags: int, ops: Ops)

  /** The table, and the one directory cursor that the whole kernel shares. */
  datatype Files = Files(fds: seq<Fd>, currentDirIndex: nat)

  /** What a call returns, and the bytes it stored in the caller's buffer. */
  datatype Answer = Answer(value: int, data: seq<byte>)

  predicate Table(f: Files) {
    |f.fds| == NUM_FILE_DESCRIPTOR
  }

  /** A descriptor on a regular file still finds that file by name, and is not past its end. */
  ghost predicate OnFile(img: Image, d: Fd)
    requires Blocks(img)
  {
    && FileName(d.fileName)
    && FindEntry(img, d.fileName) != -1
    && GoodFile(img, EntryInode(img, FindEntry(img, d.fileName)))
    && d.filePosition <= FileLength(img, EntryInode(img, FindEntry(img, d.fileName)))
  }

  ghost predicate WellFormed(img: Image) {
    && Blocks(img)
    && NumDirectory(img) <= NUM_DIR_ENTRIES
    && (forall i :: 0 <= i < NUM_DIR_ENTRIES && EntryType(img, i) == 2 ==> GoodFile(img, EntryInode(img, i)))
    && (forall i :: 0 <= i < NUM_DIR_ENTRIES ==> |CString(EntryName(img, i))| < CHAR_LENGTH)
  }

  ghost predicate Consistent(img: Image, f: Files) {
    && WellFormed(img) && Table(f) && f.currentDirIndex <= NumDirectory(img)
    && f.fds[0].ops == TerminalOps
    && forall i :: 2 <= i < NUM_FILE_DESCRIPTOR ==> Settled(img, f.fds[i])
  }

  ghost predicate Settled(img: Image, d: Fd)
    requires Blocks(img)
  {
    && (d.ops == FileOps ==> OnFile(img, d))
    && d.ops != TerminalOps
  }

  /** The file a descriptor is on. */
  ghost function FileOf(img: Image, d: Fd): seq<byte>
    requires Blocks(img) && OnFile(img, d)
  {
    Contents(img, EntryInode(img, FindEntry(img, d.fileName)))
  }

  // ----- What the calls do -----

  /** The lowest free descriptor from `i` on; 8 when all are taken. */
  function LowestFree(fds: seq<Fd>, i: nat := 2): (fd: nat)
    requires |fds| == NUM_FILE_DESCRIPTOR && i <= NUM_FILE_DESCRIPTOR
    ensures i <= fd <= NUM_FILE_DESCRIPTOR
    ensures forall j :: i <= j < fd ==> fds[j].flags != 0
    ensures fd < NUM_FILE_DESCRIPTOR ==> fds[fd].flags == 0
    decreases NUM_FILE_DESCRIPTOR - i
  {
    if i == NUM_FILE_DESCRIPTOR || fds[i].flags == 0 then i else LowestFree(fds, i + 1)
  }

  /** `open` finds the name and a free descriptor. */
  predicate Takes(img: Image, f: Files, name: seq<byte>)
    requires Blocks(img) && Table(f)
  {
    name != [] && FindEntry(img, name) != -1 && LowestFree(f.fds) < NUM_FILE_DESCRIPTOR
  }

  /** `open`.  An entry of unknown type takes a descriptor and then fails; what the descriptor could do
      before it was freed, it can do again. */
  function OpenStep(img: Image, f: Files, name: seq<byte>): (Files, Answer)
    requires Blocks(img) && Table(f)
  {
    var entry := FindEntry(img, name);
    var fd := LowestFree(f.fds);
    if !Takes(img, f, name) then (f, Answer(-1, []))
    else
      var taken := f.fds[fd].(flags := 1, filePosition := 0);
      var fileType := EntryType(img, entry);
      if fileType == 0 then (f.(fds := f.fds[fd := taken.(ops := RtcOps)]), Answer(fd, []))
      else if fileType == 1 then (f.(fds := f.fds[fd := taken.(ops := DirectoryOps)]), Answer(fd, []))
      else if fileType == 2 then (f.(fds := f.fds[fd := taken.(ops := FileOps, fileName := name)]), Answer(fd, []))
      else (f.(fds := f.fds[fd := taken]), Answer(-1, []))
  }

  predicate Readable(f: Files, fd: int)
    requires Table(f)
  {
    0 <= fd <= 7 && fd != 1 && f.fds[fd].flags != 0
  }

  /** `read_file`: the file is looked up by name again on every read. */
  ghost function ReadFileStep(img: Image, f: Files, fd: nat, n: nat): (Files, Answer)
    requires Blocks(img) && Table(f) && fd < NUM_FILE_DESCRIPTOR && OnFile(img, f.fds[fd])
  {
    var d := f.fds[fd];
    var inode := EntryInode(img, FindEntry(img, d.fileName));
    var r := ReadResult(img, inode, d.filePosition, false, n);
    if r == -1 then (f, Answer(-1, []))
    else if r == 0 then (f.(fds := f.fds[fd := d.(filePosition := FileLength(img, inode))]), Answer(0, []))
    else
      var to := d.filePosition + r;
      (f.(fds := f.fds[fd := d.(filePosition := to)]), Answer(r, FileOf(img, d)[d.filePosition..to]))
  }

  /** `read_directory`: whichever descriptor it is called on, it moves the one shared cursor. */
  function ReadDirectoryStep(img: Image, f: Files): (Files, Answer)
    requires WellFormed(img) && f.currentDirIndex <= NumDirectory(img)
  {
    if f.currentDirIndex + 1 > NumDirectory(img) then (f.(currentDirIndex := 0), Answer(0, []))
    else
      var name := CString(EntryName(img, f.currentDirIndex));
      (f.(currentDirIndex := f.currentDirIndex + 1), Answer(|name|, name + [NUL]))
  }

  /** A descriptor that `open` took for an entry of unknown type may have no operations to call. */
  predicate Callable(f: Files, fd: int)
    requires Table(f)
  {
    Readable(f, fd) ==> f.fds[fd].ops != NoOps
  }

  /** `read`.  The clock's read waits and returns 0; the terminal's waits for a line, which is `typed`,
      and delivers all of it whatever `n` is. */
  ghost function ReadStep(img: Image, f: Files, fd: int, n: nat, typed: seq<byte> := []): (Files, Answer)
    requires Consistent(img, f) && Callable(f, fd)
  {
    if !Readable(f, fd) then (f, Answer(-1, []))
    else match f.fds[fd].ops
      case FileOps => ReadFileStep(img, f, fd, n)
      case DirectoryOps => ReadDirectoryStep(img, f)
      case TerminalOps => (f, Answer(|typed|, typed + [NUL]))
      case _ => (f, Answer(0, []))
  }

  function CloseStep(f: Files, fd: int): (Files, Answer)
    requires Table(f)
  {
    if fd < 2 || fd > 7 || f.fds[fd].flags == 0 then (f, Answer(-1, []))
    else (f.(fds := f.fds[fd := f.fds[fd].(flags := 0, ops := NoOps, filePosition := 0)]), Answer(0, []))
  }

  // ----- Any interleaving -----

  datatype Call = Open(name: seq<byte>) | Read(fd: int, n: nat, typed: seq<byte> := []) | Close(fd: int)

  ghost predicate Legal(img: Image, f: Files, c: Call) {
    Consistent(img, f) &&
    match c
    case Open(name) => FileName(name)
    case Read(fd, n, _) => Callable(f, fd) && n < U32
    case Close(_) => true
  }

  ghost function Step(img: Image, f: Files, c: Call): (Files, Answer)
    requires Legal(img, f, c)
  {
    match c
    case Open(name) => OpenStep(img, f, name)
    case Read(fd, n, typed) => ReadStep(img, f, fd, n, typed)
    case Close(fd) => CloseStep(f, fd)
  }

  /** The bytes that reads on each descriptor have returned since `open` last took it. */
  ghost function Returned(img: Image, f: Files, logs: seq<seq<byte>>, c: Call, a: Answer): seq<seq<byte>>
    requires Legal(img, f, c) && |logs| == NUM_FILE_DESCRIPTOR
  {
    match c
    case Open(name) => if Takes(img, f, name) then logs[LowestFree(f.fds) := []] else logs
    case Read(fd, _, _) => if 0 <= fd < |logs| then logs[fd := logs[fd] + a.data] else logs
    case Close(_) => logs
  }

  /** A descriptor on a regular file has returned exactly the file's first `filePosition` bytes. */
  ghost predicate Cursor(img: Image, d: Fd, log: seq<byte>)
    requires Blocks(img)
  {
    Settled(img, d) && (d.ops == FileOps ==> log == FileOf(img, d)[..d.filePosition])
  }

  ghost predicate Cursors(img: Image, f: Files, logs: seq<seq<byte>>) {
    && Consistent(img, f) && |logs| == NUM_FILE_DESCRIPTOR
    && forall i :: 2 <= i < NUM_FILE_DESCRIPTOR ==> Cursor(img, f.fds[i], logs[i])
  }

  /** The descriptor a call works on. */
  ghost function Target(f: Files, c: Call): int
    requires Table(f)
  {
    match c
    case Open(_) => LowestFree(f.fds)
    case Read(fd, _, _) => fd
    case Close(fd) => fd
  }

  /** No call moves a descriptor other than the one it works on. */
  lemma OthersStay(img: Image, f: Files, c: Call, i: nat)
    requires Legal(img, f, c) && i < NUM_FILE_DESCRIPTOR && i != Target(f, c)
    ensures Table(Step(img, f, c).0) && Step(img, f, c).0.fds[i] == f.fds[i]
  {
    hide Contents, Word, ReadResult, FindEntry, CString;
  }

  lemma TargetKeepsCursor(img: Image, f: Files, c: Call, log: seq<byte>)
    requires Legal(img, f, c) && 2 <= Target(f, c) < NUM_FILE_DESCRIPTOR && Cursor(img, f.fds[Target(f, c)], log)
    ensures var (f', a) := Step(img, f, c);
            && Table(f')
            && Cursor(img, f'.fds[Target(f, c)],
                      match c
                      case Open(name) => if Takes(img, f, name) then [] else log
                      case Read(_, _, _) => log + a.data
                      case Close(_) => log)
  {
    match c
    case Open(name) => OpenKeepsCursor(img, f, name, log);
    case Read(fd, n, _) => ReadKeepsCursor(img, f, fd, n, log);
    case Close(_) =>
  }

  lemma OpenKeepsCursor(img: Image, f: Files, name: seq<byte>, log: seq<byte>)
    requires Legal(img, f, Open(name)) && LowestFree(f.fds) < NUM_FILE_DESCRIPTOR
    requires Cursor(img, f.fds[LowestFree(f.fds)], log)
    ensures var f' := OpenStep(img, f, name).0;
            Table(f') && Cursor(img, f'.fds[LowestFree(f.fds)], if Takes(img, f, name) then [] else log)
  {
    hide Contents, Word, FindEntry, CString, ReadResult, OnFile, GoodFile;
    var fd := LowestFree(f.fds);
    if Takes(img, f, name) {
      var d := OpenStep(img, f, name).0.fds[fd];
      assert d.filePosition == 0 && Settled(img, f.fds[fd]);
      if EntryType(img, FindEntry(img, name)) == 2 {
        OnNamedFile(img, name, d);
      } else if d.ops == FileOps {
        OnFileAgain(img, f.fds[fd], d);
      }
      NothingReturned(img, d);
    }
  }

  lemma OnNamedFile(img: Image, name: seq<byte>, d: Fd)
    requires WellFormed(img) && FileName(name) && FindEntry(img, name) != -1
    requires EntryType(img, FindEntry(img, name)) == 2 && d.fileName == name && d.filePosition == 0
    ensures OnFile(img, d)
  {
    hide FindEntry, Word, BlockIndex;
  }

  lemma OnFileAgain(img: Image, d: Fd, d': Fd)
    requires Blocks(img) && OnFile(img, d) && d'.fileName == d.fileName && d'.filePosition == 0
    ensures OnFile(img, d')
  {
    hide FindEntry, Word, GoodFile;
  }

  lemma NothingReturned(img: Image, d: Fd)
    requires Blocks(img) && d.filePosition == 0 && Settled(img, d)
    ensures Cursor(img, d, [])
  {
    hide OnFile, Contents;
  }

  lemma ReadKeepsCursor(img: Image, f: Files, fd: nat, n: nat, log: seq<byte>)
    requires Legal(img, f, Read(fd, n)) && 2 <= fd < NUM_FILE_DESCRIPTOR && Cursor(img, f.fds[fd], log)
    ensures var (f', a) := ReadStep(img, f, fd, n); Table(f') && Cursor(img, f'.fds[fd], log + a.data)
  {
    hide Contents, Word, FindEntry, CString;
  }

  lemma StepKeepsCursors(img: Image, f: Files, c: Call, logs: seq<seq<byte>>)
    requires Legal(img, f, c) && Cursors(img, f, logs)
    ensures var (f', a) := Step(img, f, c); Cursors(img, f', Returned(img, f, logs, c, a))
  {
    var (f', a) := Step(img, f, c);
    var t := Target(f, c);
    StepShape(img, f, c, logs);
    assert WellFormed(img);
    hide WellFormed, Cursor, Step, Returned, Legal;
    if 2 <= t < NUM_FILE_DESCRIPTOR {
      TargetKeepsCursor(img, f, c, logs[t]);
    }
    forall i | 2 <= i < NUM_FILE_DESCRIPTOR ensures Cursor(img, f'.fds[i], Returned(img, f, logs, c, a)[i]) {
      if i != t {
        OthersStay(img, f, c, i);
      }
    }
    CursorsSettled(img, f', Returned(img, f, logs, c, a));
  }

  lemma StepShape(img: Image, f: Files, c: Call, logs: seq<seq<byte>>)
    requires Legal(img, f, c) && |logs| == NUM_FILE_DESCRIPTOR
    ensures var (f', a) := Step(img, f, c);
            var r := Returned(img, f, logs, c, a);
            && Table(f') && f'.currentDirIndex <= NumDirectory(img) && f'.fds[0].ops == TerminalOps
            && |r| == NUM_FILE_DESCRIPTOR
            && (forall i :: 0 <= i < NUM_FILE_DESCRIPTOR && i != Target(f, c) ==> r[i] == logs[i])
            && (2 <= Target(f, c) < NUM_FILE_DESCRIPTOR ==>
                  r[Target(f, c)] ==
                  match c
                  case Open(name) => if Takes(img, f, name) then [] else logs[Target(f, c)]
                  case Read(_, _, _) => logs[Target(f, c)] + a.data
                  case Close(_) => logs[Target(f, c)])
  {
    assert WellFormed(img);
    match c
    case Open(name) => OpenShape(img, f, name);
    case Read(fd, n, typed) => ReadShape(img, f, fd, n, typed);
    case Close(_) =>
  }

  lemma OpenShape(img: Image, f: Files, name: seq<byte>)
    requires Consistent(img, f)
    ensures var f' := OpenStep(img, f, name).0;
            Table(f') && f'.currentDirIndex == f.currentDirIndex && f'.fds[0].ops == TerminalOps
  {
    hide Contents, Word, FindEntry, CString, OnFile, GoodFile;
  }

  lemma ReadShape(img: Image, f: Files, fd: int, n: nat, typed: seq<byte>)
    requires Consistent(img, f) && Callable(f, fd)
    ensures var f' := ReadStep(img, f, fd, n, typed).0;
            Table(f') && f'.currentDirIndex <= NumDirectory(img) && f'.fds[0].ops == TerminalOps
  {
    hide Contents, Word, FindEntry, CString, ReadResult, OnFile, GoodFile;
  }

  lemma CursorsSettled(img: Image, f: Files, logs: seq<seq<byte>>)
    requires WellFormed(img) && Table(f) && f.currentDirIndex <= NumDirectory(img) && f.fds[0].ops == TerminalOps
    requires |logs| == NUM_FILE_DESCRIPTOR
    requires forall i :: 2 <= i < NUM_FILE_DESCRIPTOR ==> Cursor(img, f.fds[i], logs[i])
    ensures Cursors(img, f, logs)
  {
    hide OnFile, GoodFile;
  }

  /** `fss` is a run of calls from `fss[0]`, and `logss` what each descriptor has returned. */
  ghost predicate CallRun(img: Image, fss: seq<Files>, logss: seq<seq<seq<byte>>>, calls: seq<Call>) {
    && |fss| == |logss| == |calls| + 1
    && forall i :: 0 <= i < |calls| ==>
         && Legal(img, fss[i], calls[i]) && |logss[i]| == NUM_FILE_DESCRIPTOR
         && fss[i + 1] == Step(img, fss[i], calls[i]).0
         && logss[i + 1] == Returned(img, fss[i], logss[i], calls[i], Step(img, fss[i], calls[i]).1)
  }

  /** Under any interleaving of calls, every descriptor is a cursor into its own file. */
  lemma {:induction false} RunKeepsCursors(img: Image, fss: seq<Files>, logss: seq<seq<seq<byte>>>,
                                           calls: seq<Call>, n: nat)
    requires CallRun(img, fss, logss, calls) && Cursors(img, fss[0], logss[0]) && n <= |calls|
    ensures Cursors(img, fss[n], logss[n])
    decreases n
  {
    if n > 0 {
      RunKeepsCursors(img, fss, logss, calls, n - 1);
      hide Cursors, Legal, Step, Returned;
      StepKeepsCursors(img, fss[n - 1], calls[n - 1], logss[n - 1]);
      assert fss[n - 1 + 1] == Step(img, fss[n - 1], calls[n - 1]).0;
    }
  }

  // ----- A new program -----

  /** What `execute` makes of the table that the last program in the slot left: the terminal's two
      descriptors are opened and 2 to 6 are freed. */
  function Renewed(f: Files): Files
    requires Table(f)
  {
    f.(fds := seq(NUM_FILE_DESCRIPTOR, i requires 0 <= i < NUM_FILE_DESCRIPTOR =>
      if i < 2 then f.fds[i].(flags := 1, ops := TerminalOps)
      else if i < 7 then f.fds[i].(flags := 0)
      else f.fds[i]))
  }

  /** A slot that has had no program holds no operations. */
  lemma FirstProgram(img: Image, f: Files)
    requires WellFormed(img) && Table(f) && f.currentDirIndex <= NumDirectory(img)
    requires forall i :: 2 <= i < NUM_FILE_DESCRIPTOR ==> f.fds[i].ops == NoOps
    ensures Cursors(img, Renewed(f), seq(NUM_FILE_DESCRIPTOR, _ => []))
  {
  }

  /** The next program in a slot starts with every cursor right, and with the terminal open and 2 to 6
      free.  All that `open` can hand out are free exactly when the last program left 7 free. */
  lemma NextProgram(img: Image, f: Files, logs: seq<seq<byte>>)
    requires Cursors(img, f, logs)
    ensures var f' := Renewed(f);
            && Cursors(img, f', logs)
            && Readable(f', 0) && f'.fds[1].flags == 1 && LowestFree(f'.fds) == 2
            && ((forall i :: 2 <= i <= 7 ==> f'.fds[i].flags == 0) <==> f.fds[7].flags == 0)
  {
    hide Contents, Word, FindEntry, CString;
    var f' := Renewed(f);
    forall i | 2 <= i < NUM_FILE_DESCRIPTOR ensures Cursor(img, f'.fds[i], logs[i]) {
      assert Cursor(img, f.fds[i], logs[i]);
      assert f.fds[i].ops == FileOps ==> FileOf(img, f'.fds[i]) == FileOf(img, f.fds[i]);
    }
    assert f'.fds[2].flags == 0;
  }

  /** The shared cursor's next two answers differ. */
  predicate Moves(img: Image, f: Files)
    requires WellFormed(img) && f.currentDirIndex <= NumDirectory(img)
  {
    var i, n := f.currentDirIndex, NumDirectory(img);
    n > 0 && !(i + 1 < n && CString(EntryName(img, i)) == CString(EntryName(img, i + 1)))
  }

  /** Directories are the exception to independence: a read on one descriptor changes what a read
      on another returns exactly when both are on a directory and the shared cursor moves onto
      something different. */
  lemma DirectoriesShare(img: Image, f: Files, a: nat, b: nat, n: nat)
    requires Legal(img, f, Read(a, n)) && Legal(img, f, Read(b, n)) && a != b && 2 <= a <= 7 && 2 <= b <= 7
    ensures Consistent(img, ReadStep(img, f, a, n).0) && Callable(ReadStep(img, f, a, n).0, b)
    ensures var after := ReadStep(img, f, a, n).0;
            ReadStep(img, after, b, n).1 != ReadStep(img, f, b, n).1 <==>
              && Readable(f, a) && Readable(f, b)
              && f.fds[a].ops == DirectoryOps && f.fds[b].ops == DirectoryOps
              && Moves(img, f)
  {
    hide Contents, Word, FindEntry, CString, ReadResult, OnFile;
    MovesOn(img, f);
    OthersStay(img, f, Read(a, n), b);
    assert Consistent(img, ReadStep(img, f, a, n).0) by {
      forall i | 2 <= i < NUM_FILE_DESCRIPTOR ensures Settled(img, ReadStep(img, f, a, n).0.fds[i]) {
        if i != a { OthersStay(img, f, Read(a, n), i); } else { ReadSettled(img, f, a, n); }
      }
    }
  }

  /** For example two descriptors on a directory whose first names are "a" and "b". */
  function TwoNames(): Image {
    [seq(BLOCK, k => if k == 0 then 2 else if k == 64 then 97 else if k == 128 then 98 else 0)]
  }

  function TwoReaders(): Files {
    Files(seq(NUM_FILE_DESCRIPTOR, i => Fd([], 0, 1, if i < 2 then TerminalOps else DirectoryOps)), 0)
  }

  lemma TwoNamesAre()
    ensures WellFormed(TwoNames()) && NumDirectory(TwoNames()) == 2
    ensures CString(EntryName(TwoNames(), 0)) == [97] && CString(EntryName(TwoNames(), 1)) == [98]
  {
    var img := TwoNames();
    assert forall i :: 0 <= i < NUM_DIR_ENTRIES ==> EntryType(img, i) == 0;
    CStringIs(EntryName(img, 0), [97]);
    CStringIs(EntryName(img, 1), [98]);
    forall i | 2 <= i < NUM_DIR_ENTRIES ensures CString(EntryName(img, i)) == [] {
      CStringIs(EntryName(img, i), []);
    }
  }

  lemma SecondNameRead()
    ensures var img, f := TwoNames(), TwoReaders();
            && Legal(img, f, Read(2, 32)) && Legal(img, f, Read(3, 32))
            && ReadStep(img, f, 3, 32).1 == Answer(1, [97, NUL])
            && Legal(img, ReadStep(img, f, 2, 32).0, Read(3, 32))
            && ReadStep(img, ReadStep(img, f, 2, 32).0, 3, 32).1 == Answer(1, [98, NUL])
  {
    TwoNamesAre();
    hide TwoNames, Word, CString, Contents;
  }

  lemma MovesOn(img: Image, f: Files)
    requires WellFormed(img) && f.currentDirIndex <= NumDirectory(img)
    ensures Moves(img, f) <==> ReadDirectoryStep(img, f).1 != ReadDirectoryStep(img, ReadDirectoryStep(img, f).0).1
  {
    hide Word, CString;
    var i, n := f.currentDirIndex, NumDirectory(img);
    if i + 1 < n {
      var a, b := CString(EntryName(img, i)), CString(EntryName(img, i + 1));
      assert a + [NUL] == b + [NUL] ==> (a + [NUL])[..|a|] == (b + [NUL])[..|b|];
    }
  }

  lemma ReadSettled(img: Image, f: Files, fd: nat, n: nat)
    requires Legal(img, f, Read(fd, n)) && 2 <= fd < NUM_FILE_DESCRIPTOR
    ensures Table(ReadStep(img, f, fd, n).0) && Settled(img, ReadStep(img, f, fd, n).0.fds[fd])
  {
    hide Contents, Word, FindEntry, CString;
  }

  /** No read on a descriptor starts past the end of its file, where nothing would stop it. */
  lemma ReadsInside(img: Image, f: Files, fd: nat, n: nat)
    requires Consistent(img, f) && 2 <= fd < NUM_FILE_DESCRIPTOR && f.fds[fd].ops == FileOps && 0 < n < U32
    ensures var length := FileLength(img, EntryInode(img, FindEntry(img, f.fds[fd].fileName)));
            f.fds[fd].filePosition + Clamp(length, f.fds[fd].filePosition, n) <= length
  {
    hide Contents, Word, CString;
    assert Settled(img, f.fds[fd]);
  }

  /** A read stores more than was asked for exactly when it is on the terminal or on a directory and what
      it delivers, with its terminator, is longer. */
  lemma ReadOverruns(img: Image, f: Files, fd: int, n: nat, typed: seq<byte>)
    requires Legal(img, f, Read(fd, n, typed))
    ensures |ReadStep(img, f, fd, n, typed).1.data| > n <==>
              && Readable(f, fd)
              && ((f.fds[fd].ops == TerminalOps && |typed| >= n)
                  || (f.fds[fd].ops == DirectoryOps && f.currentDirIndex < NumDirectory(img)
                      && |CString(EntryName(img, f.currentDirIndex))| >= n))
  {
    hide Contents, Word, CString, FindEntry;
    if Readable(f, fd) && f.fds[fd].ops == FileOps {
      assert Settled(img, f.fds[fd]);
    }
  }

  /** For example one byte asked of a directory whose next name is "a". */
  lemma OneByteAsked()
    ensures Legal(TwoNames(), TwoReaders(), Read(2, 1))
    ensures ReadStep(TwoNames(), TwoReaders(), 2, 1).1.data == [97, NUL]
  {
    TwoNamesAre();
    hide TwoNames, Word, CString, Contents;
  }

  /** An image with one file, "a", whose type is 3. */
  function UnknownType(): Image {
    [seq(BLOCK, k => if k == 0 then 1 else if k == 64 then 97 else if k == 96 then 3 else 0)]
  }

  /** For example `open` of "a" on it: it fails, and descriptor 2 is taken. */
  lemma OpenLeaves(f: Files)
    requires Table(f) && f.fds[2].flags == 0
    ensures Blocks(UnknownType())
    ensures var (f', a) := OpenStep(UnknownType(), f, [97]); a.value == -1 && Table(f') && f'.fds[2].flags == 1
  {
    UnknownIsNamed();
    hide UnknownType, CString, Word;
  }

  lemma UnknownIsNamed()
    ensures Blocks(UnknownType()) && EntryType(UnknownType(), 0) == 3 && FindEntry(UnknownType(), [97]) == 0
  {
    var img := UnknownType();
    var field := EntryName(img, 0)[..CHAR_LENGTH - 1];
    assert |field| == 31 && field[0] == 97 && field[1] == 0;
    assert field[..1] == [97];
    CStringIs(field, field[..1]);
    assert Named(img, 0, [97]);
  }

  /** For example a program that leaves all six open: the next one can open five files. */
  lemma SevenInherited(f: Files)
    requires Table(f) && forall i :: 2 <= i <= 7 ==> f.fds[i].flags == 1
    ensures var f' := Renewed(f); f'.fds[7].flags == 1 && forall i :: 2 <= i <= 6 ==> f'.fds[i].flags == 0
  {
  }

  /** `open` returns the lowest free of 2..7, at the start of the file the name finds, or -1; a failed
      `open` uses up a descriptor exactly when the entry's type is unknown. */
  lemma OpenAnswer(img: Image, f: Files, name: seq<byte>)
    requires Legal(img, f, Open(name))
    ensures var (f', a) := OpenStep(img, f, name);
            var entry := FindEntry(img, name);
            && Consistent(img, f')
            && (a.value == -1 <==>
                  || name == [] || entry == -1 || EntryType(img, entry) > 2
                  || forall j :: 2 <= j <= 7 ==> f.fds[j].flags != 0)
            && (a.value != -1 ==>
                  && 2 <= a.value <= 7 && f.fds[a.value].flags == 0 && f'.fds[a.value].flags == 1
                  && (forall j :: 2 <= j < a.value ==> f.fds[j].flags != 0)
                  && f'.fds[a.value].filePosition == 0
                  && (EntryType(img, entry) == 2 ==>
                        && f'.fds[a.value].ops == FileOps
                        && FileOf(img, f'.fds[a.value]) == Contents(img, EntryInode(img, entry))))
            && (a.value == -1 && f' != f <==>
                  && name != [] && entry != -1 && EntryType(img, entry) > 2
                  && exists j :: 2 <= j <= 7 && f.fds[j].flags == 0)
  {
    hide Contents, Word, FindEntry, CString, ReadResult;
    OpenConsistent(img, f, name);
    var fd := LowestFree(f.fds);
    assert fd < NUM_FILE_DESCRIPTOR ==> f.fds[fd].flags == 0;
  }

  /** What is read after an `open`: of the clock nothing, and of a directory the next name in it with its
      terminator, or nothing at its end. */
  lemma OpenThenRead(img: Image, f: Files, name: seq<byte>, n: nat)
    requires Legal(img, f, Open(name)) && n < U32 && OpenStep(img, f, name).1.value != -1
    requires EntryType(img, FindEntry(img, name)) < 2
    ensures var (f', a) := OpenStep(img, f, name);
            && Consistent(img, f') && Callable(f', a.value)
            && ReadStep(img, f', a.value, n).1 ==
               if EntryType(img, FindEntry(img, name)) == 1 && f.currentDirIndex < NumDirectory(img) then
                 var next := CString(EntryName(img, f.currentDirIndex));
                 Answer(|next|, next + [0])
               else Answer(0, [])
  {
    hide Contents, Word, FindEntry, CString, ReadResult, OnFile;
    OpenConsistent(img, f, name);
  }

  /** Reading a directory to its end: each name once and in order, then nothing, and then from the start. */
  lemma DirectoryInOrder(img: Image, f: Files, fd: int, n: nat)
    requires Legal(img, f, Read(fd, n)) && Readable(f, fd) && f.fds[fd].ops == DirectoryOps
    ensures var (f', a) := ReadStep(img, f, fd, n);
            && f' == f.(currentDirIndex := if f.currentDirIndex < NumDirectory(img) then f.currentDirIndex + 1 else 0)
            && (f.currentDirIndex < NumDirectory(img) ==>
                  var next := CString(EntryName(img, f.currentDirIndex));
                  a == Answer(|next|, next + [0]))
            && (f.currentDirIndex == NumDirectory(img) ==> a == Answer(0, []))
  {
    hide Word, CString, FindEntry;
  }

  /** A read fails exactly when its descriptor cannot be read or it asks for nothing before a file's end. */
  lemma ReadFails(img: Image, f: Files, fd: int, n: nat, typed: seq<byte>)
    requires Legal(img, f, Read(fd, n, typed))
    ensures ReadStep(img, f, fd, n, typed).1.value == -1 <==>
              || fd < 0 || fd > 7 || fd == 1 || f.fds[fd].flags == 0
              || (f.fds[fd].ops == FileOps && n == 0 && f.fds[fd].filePosition < |FileOf(img, f.fds[fd])|)
    ensures ReadStep(img, f, fd, n, typed).1.value == -1 ==> ReadStep(img, f, fd, n, typed) == (f, Answer(-1, []))
  {
    hide Contents, Word, FindEntry, CString;
    if 2 <= fd <= 7 {
      assert Settled(img, f.fds[fd]);
    }
  }

  /** Reading the terminal delivers the whole line and its terminator. */
  lemma TerminalDelivers(img: Image, f: Files, n: nat, typed: seq<byte>)
    requires Legal(img, f, Read(0, n, typed)) && f.fds[0].flags != 0
    ensures ReadStep(img, f, 0, n, typed) == (f, Answer(|typed|, typed + [0]))
  {
  }

  /** `close` succeeds exactly on an open one of 2..7.  Afterwards that one is free and can be neither read
      nor closed, and the others are as before; a `close` that fails changes nothing. */
  lemma CloseAnswer(img: Image, f: Files, fd: int, n: nat)
    requires Consistent(img, f) && n < U32
    ensures var (f', a) := CloseStep(f, fd);
            && Table(f') && f'.currentDirIndex == f.currentDirIndex
            && (if 2 <= fd <= 7 && f.fds[fd].flags != 0 then
                  && a == Answer(0, []) && f'.fds[fd] == Fd(f.fds[fd].fileName, 0, 0, NoOps)
                  && (forall i :: 0 <= i <= 7 && i != fd ==> f'.fds[i] == f.fds[i])
                  && Consistent(img, f') && ReadStep(img, f', fd, n).1 == Answer(-1, [])
                  && CloseStep(f', fd) == (f', Answer(-1, []))
                else a == Answer(-1, []) && f' == f)
  {
    hide Word, CString, FindEntry, Contents, OnFile;
  }

  /** What a program relies on when it reads a file in pieces: short answers only at the end. */
  lemma FileRead(img: Image, f: Files, fd: nat, n: nat)
    requires Legal(img, f, Read(fd, n)) && 2 <= fd <= 7 && Readable(f, fd) && f.fds[fd].ops == FileOps && n > 0
    ensures var (f', a) := ReadStep(img, f, fd, n);
            var file, at := FileOf(img, f.fds[fd]), f.fds[fd].filePosition;
            && Consistent(img, f') && Callable(f', fd)
            && a.value == (if n < |file| - at then n else |file| - at)
            && a.data == file[at..at + a.value]
            && f' == f.(fds := f.fds[fd := f.fds[fd].(filePosition := at + a.value)])
            && FileOf(img, f'.fds[fd]) == file
  {
    hide Contents, Word, FindEntry, CString;
    ReadSettled(img, f, fd, n);
    var f' := ReadStep(img, f, fd, n).0;
    forall i | 2 <= i < NUM_FILE_DESCRIPTOR ensures Settled(img, f'.fds[i]) {
    }
  }

  /** One process's table, in place. */
  class Pcb {
    const img: Image
    const fd: array<Fd>
    var currentDirIndex: nat

    ghost predicate Valid()
      reads this, fd
    {
      Consistent(img, Abs())
    }

    ghost function Abs(): Files
      reads this, fd
    {
      Files(fd[..], currentDirIndex)
    }

    /** The memory of a slot, as the last program left it. */
    constructor (img: Image, f: Files)
      requires Consistent(img, f)
      ensures Valid() && fresh(fd) && this.img == img && Abs() == f
    {
      this.img := img;
      fd := new Fd[NUM_FILE_DESCRIPTOR](i requires 0 <= i < NUM_FILE_DESCRIPTOR => f.fds[i]);
      currentDirIndex := f.currentDirIndex;
      new;
      assert fd[..] == f.fds;
    }

    /** What `execute` does to the table before it starts a program. */
    method Renew()
      requires Valid()
      modifies fd
      ensures Valid() && Abs() == Renewed(old(Abs()))
    {
      hide Contents, Word, FindEntry, CString;
      fd[0] := fd[0].(flags := 1, ops := TerminalOps);
      fd[1] := fd[1].(flags := 1, ops := TerminalOps);
      for i := 2 to 7
        invariant fd[0] == old(fd[0]).(flags := 1, ops := TerminalOps)
        invariant fd[1] == old(fd[1]).(flags := 1, ops := TerminalOps)
        invariant forall j :: 2 <= j <= 7 ==> fd[j] == if j < i then old(fd[j]).(flags := 0) else old(fd[j])
      {
        fd[i] := fd[i].(flags := 0);
      }
      assert fd[..] == Renewed(old(Abs())).fds;
    }

    method Open(name: seq<byte>) returns (r: int)
      requires Valid() && FileName(name)
      modifies fd
      ensures Valid() && (Abs(), Answer(r, [])) == OpenStep(img, old(Abs()), name)
    {
      OpenConsistent(img, Abs(), name);
      if name == [] {
        return -1;
      }
      var entry := ReadDentryByName(img, name);
      if entry == -1 {
        return -1;
      }
      var i := 2;
      while i < NUM_FILE_DESCRIPTOR && fd[i].flags != 0
        invariant 2 <= i <= NUM_FILE_DESCRIPTOR
        invariant LowestFree(fd[..], i) == LowestFree(fd[..])
      {
        i := i + 1;
      }
      if i == NUM_FILE_DESCRIPTOR {
        return -1;
      }
      fd[i] := fd[i].(flags := 1, filePosition := 0);
      var fileType := EntryType(img, entry);
      if fileType == 0 {
        fd[i] := fd[i].(ops := RtcOps);
      } else if fileType == 1 {
        fd[i] := fd[i].(ops := DirectoryOps);
      } else if fileType == 2 {
        fd[i] := fd[i].(ops := FileOps, fileName := name);
      } else {
        return -1;
      }
      assert fd[..] == old(fd[..])[i := fd[i]];
      return i;
    }

    /** `read` into `buf` from `start` on. */
    method Read(d: int, buf: array<byte>, start: nat, n: nat, typed: seq<byte> := []) returns (r: int)
      requires Valid() && Callable(Abs(), d) && n < U32
      requires start + |ReadStep(img, Abs(), d, n, typed).1.data| <= buf.Length
      modifies this, fd, buf
      ensures Valid()
      ensures var (f', a) := ReadStep(img, old(Abs()), d, n, typed);
              && Abs() == f' && r == a.value && start + |a.data| <= buf.Length
              && buf[..] == old(buf[..start]) + a.data + old(buf[start + |a.data|..])
    {
      if d < 0 || d > 7 || d == 1 || fd[d].flags == 0 {
        return -1;
      }
      ghost var before := Abs();
      hide Contents, Word, FindEntry, CString;
      assert Consistent(img, ReadStep(img, before, d, n, typed).0) by { ReadConsistent(img, before, d, n, typed); }
      if fd[d].ops == FileOps {
        r := ReadFile(d, buf, start, n);
      } else if fd[d].ops == DirectoryOps {
        r := ReadDirectory(buf, start);
      } else if fd[d].ops == TerminalOps {
        r := ReadTerminal(buf, start, typed);
      } else {
        r := 0;
      }
    }

    /** `terminal_read`, once a line has been typed. */
    method ReadTerminal(buf: array<byte>, start: nat, typed: seq<byte>) returns (r: int)
      requires start + |typed| < buf.Length
      modifies buf
      ensures r == |typed| && buf[..] == old(buf[..start]) + typed + [NUL] + old(buf[start + |typed| + 1..])
    {
      for i := 0 to |typed|
        invariant forall j :: start <= j < start + i ==> buf[j] == typed[j - start]
        invariant forall j :: 0 <= j < buf.Length && !(start <= j < start + i) ==> buf[j] == old(buf[j])
      {
        buf[start + i] := typed[i];
      }
      buf[start + |typed|] := NUL;
      r := |typed|;
    }

    method ReadFile(d: nat, buf: array<byte>, start: nat, n: nat) returns (r: int)
      requires Valid() && n < U32 && 2 <= d < NUM_FILE_DESCRIPTOR && OnFile(img, fd[d])
      requires start + |ReadFileStep(img, Abs(), d, n).1.data| <= buf.Length
      modifies fd, buf
      ensures var (f', a) := ReadFileStep(img, old(Abs()), d, n);
              && Abs() == f' && r == a.value && start + |a.data| <= buf.Length
              && buf[..] == old(buf[..start]) + a.data + old(buf[start + |a.data|..])
    {
      hide Contents, Word, FindEntry, CString, ReadResult, WellFormed, BlockIndex;
      FileShort(img, fd[d]);
      var entry := ReadDentryByName(img, fd[d].fileName);
      if entry == -1 {
        return -1;
      }
      var offset, inode := fd[d].filePosition, EntryInode(img, entry);
      r := ReadData(img, inode, offset, buf, start, n);
      if r == -1 {
        return -1;
      }
      if r == 0 {
        fd[d] := fd[d].(filePosition := FileLength(img, inode));
      } else {
        fd[d] := fd[d].(filePosition := r + offset);
      }
    }

    method ReadDirectory(buf: array<byte>, start: nat) returns (r: int)
      requires Valid() && start + |ReadDirectoryStep(img, Abs()).1.data| <= buf.Length
      modifies this, buf
      ensures var (f', a) := ReadDirectoryStep(img, old(Abs()));
              && Abs() == f' && r == a.value && start + |a.data| <= buf.Length
              && buf[..] == old(buf[..start]) + a.data + old(buf[start + |a.data|..])
    {
      if currentDirIndex + 1 > NumDirectory(img) {
        currentDirIndex := 0;
        return 0;
      }
      hide Word;
      r := CopyName(buf, start, EntryName(img, currentDirIndex));
      currentDirIndex := currentDirIndex + 1;
    }

    /** `strcpy` of a directory entry's name, and its length. */
    method CopyName(buf: array<byte>, start: nat, name: seq<byte>) returns (r: int)
      requires |CString(name)| < |name| && start + |CString(name)| < buf.Length
      modifies buf
      ensures r == |CString(name)|
      ensures buf[..] == old(buf[..start]) + (CString(name) + [NUL]) + old(buf[start + r + 1..])
    {
      hide *;
      ghost var c, was := CString(name), buf[..];
      var i := 0;
      while name[i] != NUL
        invariant 0 <= i <= |c|
        invariant forall j :: start <= j < start + i ==> buf[j] == name[j - start]
        invariant forall j :: 0 <= j < buf.Length && !(start <= j < start + i) ==> buf[j] == was[j]
        decreases |c| - i
      {
        buf[start + i] := name[i];
        assert i < |c| ==> c[i] in c && c[i] == name[i];
        i := i + 1;
      }
      buf[start + i] := NUL;
      assert forall j :: start <= j < start + i ==> buf[j] == (c + [NUL])[j - start];
      Spliced(buf[..], was, start, c + [NUL]);
      r := i;
    }

    method Close(d: int) returns (r: int)
      requires Valid()
      modifies fd
      ensures Valid() && (Abs(), Answer(r, [])) == CloseStep(old(Abs()), d)
    {
      if d < 2 || d > 7 || fd[d].flags == 0 {
        return -1;
      }
      fd[d] := fd[d].(flags := 0, ops := NoOps, filePosition := 0);
      return 0;
    }
  }

  lemma FileShort(img: Image, d: Fd)
    requires WellFormed(img) && OnFile(img, d)
    ensures Blocks(img) && d.filePosition < U32
  {
  }

  lemma OpenConsistent(img: Image, f: Files, name: seq<byte>)
    requires Consistent(img, f) && FileName(name)
    ensures Consistent(img, OpenStep(img, f, name).0)
  {
    hide Contents, Word, FindEntry, CString, ReadResult;
  }

  lemma ReadConsistent(img: Image, f: Files, fd: int, n: nat, typed: seq<byte>)
    requires Legal(img, f, Read(fd, n, typed))
    ensures Consistent(img, ReadStep(img, f, fd, n, typed).0)
  {
    hide Contents, Word, FindEntry, CString;
    var f' := ReadStep(img, f, fd, n, typed).0;
    forall i | 2 <= i < NUM_FILE_DESCRIPTOR ensures Settled(img, f'.fds[i]) {
      if i != fd { OthersStay(img, f, Read(fd, n), i); } else { ReadSettled(img, f, fd, n); }
    }
  }

  /** Descriptor `fd` is `at` bytes into `file`. */
  ghost predicate Reading(img: Image, f: Files, fd: int, file: seq<byte>, at: nat) {
    && Consistent(img, f) && 2 <= fd <= 7 && at <= |file|
    && f.fds[fd].flags == 1 && f.fds[fd].ops == FileOps && f.fds[fd].filePosition == at
    && OnFile(img, f.fds[fd]) && FileOf(img, f.fds[fd]) == file
  }

  /** The next piece of an open file, as programs ask for it. */
  method ReadOn(pcb: Pcb, fd: int, buf: array<byte>, start: nat, n: nat, ghost file: seq<byte>, ghost at: nat)
    returns (cnt: int)
    requires Reading(pcb.img, pcb.Abs(), fd, file, at) && 0 < n < U32 && start + n <= buf.Length
    modifies pcb, pcb.fd, buf
    ensures cnt == if n < |file| - at then n else |file| - at
    ensures Reading(pcb.img, pcb.Abs(), fd, file, at + cnt)
    ensures forall i :: 0 <= i <= 7 && i != fd ==> pcb.fd[i] == old(pcb.fd[i])
    ensures buf[..] == old(buf[..start]) + file[at..at + cnt] + old(buf[start + cnt..])
  {
    hide Contents, Word, FindEntry, CString, ReadResult;
    ghost var before := pcb.Abs();
    FileRead(pcb.img, before, fd, n);
    cnt := pcb.Read(fd, buf, start, n);
    ghost var after := pcb.Abs();
    assert after.fds == before.fds[fd := before.fds[fd].(filePosition := at + cnt)];
    assert forall i :: 0 <= i <= 7 ==> pcb.fd[i] == after.fds[i];
  }
}
