/**
 The animation: two text files read side by side become blinking cells, and the cells alternate
 between the files' characters for ever.
 */
module Frames {
  import opened Bytes
  import opened Text
  import opened Blink
  import opened FileSystem
  import D = Descriptors

  const OFFSET := 40
  const COLUMNS := 80
  const HALF := 15
  const ZERO: byte := 48      // '0', the placeholder before the first read of a line

  // ----- What is to be added -----

  function Row(lines: seq<seq<byte>>, row: nat): seq<byte> {
    if row < |lines| then lines[row] else []
  }

  /** The character at a place of a text, with blanks all around it. */
  function CharAt(lines: seq<seq<byte>>, row: nat, col: nat): byte {
    if col < |Row(lines, row)| then Row(lines, row)[col] else SPACE
  }

  predicate Visible(l0: seq<seq<byte>>, l1: seq<seq<byte>>, row: nat, col: nat) {
    CharAt(l0, row, col) != SPACE || CharAt(l1, row, col) != SPACE
  }

  function Max(a: nat, b: nat): nat {
    if a < b then b else a
  }

  function Place(row: nat, col: nat): nat {
    row * COLUMNS + col + OFFSET
  }

  /** The argument of one `ioctl`; the location is stored in 16 bits. */
  function Request(l0: seq<seq<byte>>, l1: seq<seq<byte>>, row: nat, col: nat): Cell {
    Cell(Place(row, col) % 0x1_0000, CharAt(l0, row, col), CharAt(l1, row, col), HALF, HALF, 0, 0)
  }

  function RowRequests(l0: seq<seq<byte>>, l1: seq<seq<byte>>, row: nat, cols: nat): seq<Cell> {
    if cols == 0 then []
    else
      RowRequests(l0, l1, row, cols - 1)
      + if Visible(l0, l1, row, cols - 1) then [Request(l0, l1, row, cols - 1)] else []
  }

  /** In row-major order, one request for each place where either text shows something. */
  function Requests(l0: seq<seq<byte>>, l1: seq<seq<byte>>, rows: nat): seq<Cell> {
    if rows == 0 then []
    else
      Requests(l0, l1, rows - 1)
      + RowRequests(l0, l1, rows - 1, Max(|Row(l0, rows - 1)|, |Row(l1, rows - 1)|))
  }

  function AllRequests(l0: seq<seq<byte>>, l1: seq<seq<byte>>): seq<Cell> {
    Requests(l0, l1, Max(|l0|, |l1|))
  }

  datatype Board = Board(cells: seq<Cell>, screen: seq<byte>)

  /** The list and the screen after a number of adds. */
  ghost function AddAll(b: Board, users: seq<Cell>): (r: Board)
    requires |b.screen| == PAGE_BYTES
    ensures |r.screen| == PAGE_BYTES
  {
    if users == [] then b
    else
      var n := |users| - 1;
      var before := AddAll(b, users[..n]);
      if users[n].location < CELLS && |before.cells| < CELLS then
        Board(AddList(before.cells, users[n]), Poke(before.screen, users[n].location, users[n].onChar))
      else before
  }

  ghost function AddAllHeap(h: Heap, users: seq<Cell>): Heap {
    if users == [] then h else AddHeap(AddAllHeap(h, users[..|users| - 1]), users[|users| - 1])
  }

  // ----- Reading one file a character at a time -----

  /** Where the reader of one file is: the start of the current line, the next byte to read, the last
      character read and whether the file has ended. */
  datatype Side = Side(file: seq<byte>, start: nat, at: nat, c: byte, eof: bool)

  /** `start` is where line `row` starts. */
  ghost predicate LineStart(x: Side, row: nat) {
    row < |Lines(x.file)| && x.start <= |x.file| && Lines(x.file[x.start..]) == Lines(x.file)[row..]
  }

  /** The line has been read to its end. */
  ghost predicate LineDone(x: Side, row: nat)
    requires row < |Lines(x.file)|
  {
    && x.c == NEWLINE
    && x.eof == (row + 1 == |Lines(x.file)|)
    && x.at == if x.eof then |x.file| else x.start + |Lines(x.file)[row]| + 1
  }

  /** Before the reads for column `col`. */
  ghost predicate AtHead(x: Side, row: nat, col: nat) {
    if row < |Lines(x.file)| then
      && LineStart(x, row)
      && if x.c != NEWLINE then !x.eof && col <= |Lines(x.file)[row]| && x.at == x.start + col
         else |Lines(x.file)[row]| < col && LineDone(x, row)
    else x.c == NEWLINE && x.eof
  }

  /** After them. */
  ghost predicate AfterRead(x: Side, row: nat, col: nat) {
    if row < |Lines(x.file)| then
      && LineStart(x, row)
      && if col < |Lines(x.file)[row]| then
           x.c == Lines(x.file)[row][col] != NEWLINE && !x.eof && x.at == x.start + col + 1
         else LineDone(x, row)
    else x.c == NEWLINE && x.eof
  }

  /** The current line is what stands between its start and the next newline, or the end. */
  lemma LineIs(x: Side, row: nat)
    requires LineStart(x, row)
    ensures var a, end := Lines(x.file)[row], x.start + |Lines(x.file)[row]|;
            && end <= |x.file| && a == x.file[x.start..end] && NEWLINE !in a
            && (end < |x.file| <==> row + 1 < |Lines(x.file)|)
            && (end < |x.file| ==> x.file[end] == NEWLINE && Lines(x.file[end + 1..]) == Lines(x.file)[row + 1..])
  {
    hide Lines, FirstNewline;
    var rest := x.file[x.start..];
    var i := FirstNewline(rest);
    LinesUnfold(rest);
    assert Lines(x.file)[row] == Lines(x.file)[row..][0];
    if i < |rest| {
      assert rest[i + 1..] == x.file[x.start + i + 1..];
      assert Lines(x.file)[row + 1..] == Lines(x.file)[row..][1..];
    }
  }

  /** What a read of one byte does to the reader. */
  ghost function Next(x: Side): Side
    requires x.c != NEWLINE ==> x.at <= |x.file|
  {
    if x.c == NEWLINE then x
    else if x.at == |x.file| then x.(c := NEWLINE, eof := true)
    else x.(c := x.file[x.at], at := x.at + 1)
  }

  lemma NextReads(x: Side, row: nat, col: nat)
    requires AtHead(x, row, col)
    ensures x.c != NEWLINE ==> x.at <= |x.file|
    ensures AfterRead(Next(x), row, col) && AtHead(Next(x), row, col + 1)
  {
    hide Lines;
    if row < |Lines(x.file)| {
      LineIs(x, row);
      assert LineStart(Next(x), row);
      var a := Lines(x.file)[row];
      assert col < |a| ==> a[col] == x.file[x.start + col] && a[col] in a;
    }
  }

  /** What the reader shows at a column it has read. */
  lemma ColumnRead(x: Side, row: nat, col: nat)
    requires AfterRead(x, row, col)
    ensures CharAt(Lines(x.file), row, col) == if x.c == NEWLINE then SPACE else x.c
    ensures x.c == NEWLINE <==> |Row(Lines(x.file), row)| <= col
  {
    hide Lines;
  }

  lemma HeadOpen(x: Side, row: nat, col: nat)
    requires AtHead(x, row, col)
    ensures x.c != NEWLINE ==> !x.eof
  {
    hide Lines;
  }

  /** The reader at the start of the next row. */
  ghost function NextRow(x: Side): (r: Side)
    ensures r.file == x.file && r.eof == x.eof
  {
    if x.eof then x else x.(start := x.at, c := ZERO)
  }

  lemma NextRowStarts(x: Side, row: nat, col: nat)
    requires AfterRead(x, row, col) && x.c == NEWLINE
    ensures AtHead(NextRow(x), row + 1, 0)
  {
    hide Lines;
    if row < |Lines(x.file)| {
      LineIs(x, row);
    }
  }

  ghost predicate Ready(pcb: D.Pcb, fd: int, x: Side)
    reads pcb, pcb.fd
  {
    !x.eof ==> x.at <= |x.file| && D.Reading(pcb.img, pcb.Abs(), fd, x.file, x.at)
  }

  lemma ReadingValid(pcb: D.Pcb, fd: int, file: seq<byte>, at: nat)
    requires D.Reading(pcb.img, pcb.Abs(), fd, file, at)
    ensures pcb.Valid() && at <= |file|
  {
  }

  /** The read of one character, unless the line has already ended. */
  method NextChar(pcb: D.Pcb, fd: int, c: byte, eof: bool, ghost x: Side) returns (c': byte, eof': bool)
    requires pcb.Valid() && Ready(pcb, fd, x) && x.c == c && x.eof == eof && (c != NEWLINE ==> !eof)
    modifies pcb, pcb.fd
    ensures x.c != NEWLINE ==> x.at <= |x.file|
    ensures pcb.Valid() && (!eof' ==> Ready(pcb, fd, Next(x))) && c' == Next(x).c && eof' == Next(x).eof
    ensures forall i :: 0 <= i <= 7 && i != fd ==> pcb.fd[i] == old(pcb.fd[i])
  {
    hide D.Consistent, D.Reading;
    c', eof' := c, eof;
    if c != NEWLINE {
      var buf := new byte[1];
      buf[0] := c;
      var numBytes := D.ReadOn(pcb, fd, buf, 0, 1, x.file, x.at);
      ReadingValid(pcb, fd, x.file, x.at + numBytes);
      c' := buf[0];
      if numBytes == 0 {
        c' := NEWLINE;
        eof' := true;
      } else {
        assert buf[..][0] == x.file[x.at..x.at + 1][0];
      }
    }
  }

  /** The engine after these adds, whatever they are; and, unless one of them is at location 0, its list. */
  ghost predicate Added(engine: Engine, h: Heap, b: Board, valid: bool, users: seq<Cell>)
    requires |b.screen| == PAGE_BYTES
    reads engine, engine.pool, engine.vmem
  {
    && engine.Shaped()
    && engine.Memory() == AddAllHeap(h, users)
    && (valid && (forall i :: 0 <= i < |users| ==> users[i].location != 0) ==>
          engine.Valid() && Board(engine.List(), engine.vmem[..]) == AddAll(b, users))
  }

  /** One `ioctl`. */
  method AddOne(engine: Engine, user: Cell, ghost h: Heap, ghost b: Board, ghost valid: bool, ghost users: seq<Cell>)
    requires |b.screen| == PAGE_BYTES && Added(engine, h, b, valid, users)
    modifies engine, engine.pool, engine.vmem
    ensures Added(engine, h, b, valid, users + [user])
  {
    assert (users + [user])[..|users|] == users;
    assert (users + [user])[|users|] == user;
    assert forall i :: 0 <= i < |users| ==> users[i] == (users + [user])[i];
    var r := engine.Add(user);
  }

  /** A file that the animation can read. */
  ghost predicate Frame(img: Image, name: seq<byte>)
    requires D.WellFormed(img)
  {
    FileName(name) && (FindEntry(img, name) != -1 ==> EntryType(img, FindEntry(img, name)) == 2)
  }

  ghost function LinesOf(img: Image, name: seq<byte>): seq<seq<byte>>
    requires D.WellFormed(img) && Frame(img, name) && FindEntry(img, name) != -1
  {
    Lines(Contents(img, EntryInode(img, FindEntry(img, name))))
  }

  /** Both readers, on descriptors of their own. */
  ghost predicate Readers(pcb: D.Pcb, fd0: int, fd1: int, x0: Side, x1: Side)
    reads pcb, pcb.fd
  {
    pcb.Valid() && fd0 != fd1 && Ready(pcb, fd0, x0) && Ready(pcb, fd1, x1)
  }

  /** The two reads of one column. */
  method ReadBoth(pcb: D.Pcb, fd0: int, fd1: int, c0: byte, c1: byte, eof0: bool, eof1: bool,
                  ghost x0: Side, ghost x1: Side)
    returns (c0': byte, c1': byte, eof0': bool, eof1': bool)
    requires Readers(pcb, fd0, fd1, x0, x1) && c0 == x0.c && c1 == x1.c && eof0 == x0.eof && eof1 == x1.eof
    requires (c0 != NEWLINE ==> !eof0) && (c1 != NEWLINE ==> !eof1)
    modifies pcb, pcb.fd
    ensures (x0.c != NEWLINE ==> x0.at <= |x0.file|) && (x1.c != NEWLINE ==> x1.at <= |x1.file|)
    ensures Readers(pcb, fd0, fd1, Next(x0), Next(x1))
    ensures c0' == Next(x0).c && c1' == Next(x1).c && eof0' == Next(x0).eof && eof1' == Next(x1).eof
  {
    c0', eof0' := NextChar(pcb, fd0, c0, eof0, x0);
    c1', eof1' := NextChar(pcb, fd1, c1, eof1, x1);
  }

  /** The inner loop of `add_frames`: one row of both files. */
  method AddRow(pcb: D.Pcb, engine: Engine, fd0: int, fd1: int, c0: byte, c1: byte, eof0: bool, eof1: bool, row: nat,
                ghost x0: Side, ghost x1: Side,
                ghost h: Heap, ghost b: Board, ghost valid: bool, ghost users: seq<Cell>)
    returns (eof0': bool, eof1': bool, ghost y0: Side, ghost y1: Side)
    requires Readers(pcb, fd0, fd1, x0, x1) && c0 == x0.c && c1 == x1.c && eof0 == x0.eof && eof1 == x1.eof
    requires AtHead(x0, row, 0) && AtHead(x1, row, 0)
    requires |b.screen| == PAGE_BYTES && Added(engine, h, b, valid, users)
    modifies pcb, pcb.fd, engine, engine.pool, engine.vmem
    ensures Readers(pcb, fd0, fd1, y0, y1) && y0.file == x0.file && y1.file == x1.file
    ensures AtHead(NextRow(y0), row + 1, 0) && AtHead(NextRow(y1), row + 1, 0)
    ensures eof0' == y0.eof && eof1' == y1.eof && y0.c == y1.c == NEWLINE
    ensures var l0, l1 := Lines(x0.file), Lines(x1.file);
            Added(engine, h, b, valid, users + RowRequests(l0, l1, row, Max(|Row(l0, row)|, |Row(l1, row)|)))
  {
    hide Lines, Added, AtHead, AfterRead, Readers, CharAt, Row;
    ghost var l0, l1 := Lines(x0.file), Lines(x1.file);
    ghost var width := Max(|Row(l0, row)|, |Row(l1, row)|);
    y0, y1, eof0', eof1' := x0, x1, eof0, eof1;
    var c0', c1', col := c0, c1, 0;
    ghost var added := users;
    assert users == users + RowRequests(l0, l1, row, 0);
    while true
      invariant y0.file == x0.file && y1.file == x1.file
      invariant 0 <= col <= width && AtHead(y0, row, col) && AtHead(y1, row, col)
      invariant Readers(pcb, fd0, fd1, y0, y1)
      invariant c0' == y0.c && c1' == y1.c && eof0' == y0.eof && eof1' == y1.eof
      invariant added == users + RowRequests(l0, l1, row, col) && Added(engine, h, b, valid, added)
      decreases width - col
    {
      HeadOpen(y0, row, col);
      HeadOpen(y1, row, col);
      NextReads(y0, row, col);
      NextReads(y1, row, col);
      c0', c1', eof0', eof1' := ReadBoth(pcb, fd0, fd1, c0', c1', eof0', eof1', y0, y1);
      y0, y1 := Next(y0), Next(y1);
      ColumnRead(y0, row, col);
      ColumnRead(y1, row, col);
      if c0' == NEWLINE && c1' == NEWLINE {
        break;
      } else {
        if (c0' != SPACE && c0' != NEWLINE) || (c1' != SPACE && c1' != NEWLINE) {
          var onChar := if c0' == NEWLINE then SPACE else c0';
          var offChar := if c1' == NEWLINE then SPACE else c1';
          var user := Cell((row * COLUMNS + col + OFFSET) % 0x1_0000, onChar, offChar, HALF, HALF, 0, 0);
          AddOne(engine, user, h, b, valid, added);
          added := added + [user];
        }
        assert added == users + RowRequests(l0, l1, row, col + 1);
      }
      col := col + 1;
    }
    assert col == width;
    NextRowStarts(y0, row, col);
    NextRowStarts(y1, row, col);
  }

  /** The directory has the file. */
  ghost predicate Present(img: Image, name: seq<byte>)
    requires Blocks(img)
  {
    name != [] && FindEntry(img, name) != -1
  }

  /** Two of the descriptors that `open` hands out are free. */
  ghost predicate TwoFree(fds: seq<D.Fd>)
    requires |fds| == D.NUM_FILE_DESCRIPTOR
  {
    exists i, j :: 2 <= i < j <= 7 && fds[i].flags == 0 && fds[j].flags == 0
  }

  ghost predicate CanOpenBoth(img: Image, fds: seq<D.Fd>, f0: seq<byte>, f1: seq<byte>)
    requires Blocks(img) && |fds| == D.NUM_FILE_DESCRIPTOR
  {
    Present(img, f0) && Present(img, f1) && TwoFree(fds)
  }

  /** Once one descriptor is taken, another is free exactly when there were two. */
  lemma OneMoreFree(fds: seq<D.Fd>, fds': seq<D.Fd>, fd: nat)
    requires |fds| == |fds'| == D.NUM_FILE_DESCRIPTOR && 2 <= fd <= 7 && fds[fd].flags == 0 && fds'[fd].flags == 1
    requires forall i :: 0 <= i <= 7 && i != fd ==> fds'[i] == fds[i]
    ensures TwoFree(fds) <==> OneFree(fds')
  {
    if j :| 2 <= j <= 7 && fds'[j].flags == 0 {
      assert if j < fd then fds[j].flags == 0 && fds[fd].flags == 0 else fds[fd].flags == 0 && fds[j].flags == 0;
    }
    if i, j :| 2 <= i < j <= 7 && fds[i].flags == 0 && fds[j].flags == 0 {
      assert fds'[if i == fd then j else i].flags == 0;
    }
  }

  ghost predicate OneFree(fds: seq<D.Fd>)
    requires |fds| == D.NUM_FILE_DESCRIPTOR
  {
    exists i :: 2 <= i <= 7 && fds[i].flags == 0
  }

  /** Open one file; x is where its reader starts. */
  method OpenOne(pcb: D.Pcb, name: seq<byte>) returns (fd: int, ghost x: Side)
    requires pcb.Valid() && Frame(pcb.img, name)
    modifies pcb.fd
    ensures pcb.Valid() && |old(pcb.fd[..])| == |pcb.fd[..]| == D.NUM_FILE_DESCRIPTOR
    ensures fd >= 0 <==> Present(pcb.img, name) && OneFree(old(pcb.fd[..]))
    ensures fd >= 0 ==>
              && 2 <= fd <= 7 && old(pcb.fd[fd]).flags == 0 && pcb.fd[fd].flags == 1
              && FindEntry(pcb.img, name) != -1 && Lines(x.file) == LinesOf(pcb.img, name)
              && x == Side(x.file, 0, 0, ZERO, false) && Ready(pcb, fd, x)
    ensures forall i :: 0 <= i <= 7 && i != fd ==> pcb.fd[i] == old(pcb.fd[i])
  {
    hide Contents, Word, FindEntry, CString, ReadResult, Lines, GoodFile;
    x := Side([], 0, 0, ZERO, true);
    ghost var img, before := pcb.img, pcb.Abs();
    D.OpenAnswer(img, before, name);
    fd := pcb.Open(name);
    assert pcb.fd[..] == pcb.Abs().fds;
    if fd >= 0 {
      forall i | 0 <= i <= 7 && i != fd ensures pcb.Abs().fds[i] == before.fds[i] {
        D.OthersStay(img, before, D.Call.Open(name), i);
      }
      x := Side(D.FileOf(img, pcb.fd[fd]), 0, 0, ZERO, false);
    }
  }

  lemma StillReading(img: Image, f: D.Files, f': D.Files, fd: int, file: seq<byte>, at: nat)
    requires D.Reading(img, f, fd, file, at) && D.Consistent(img, f') && f'.fds[fd] == f.fds[fd]
    ensures D.Reading(img, f', fd, file, at)
  {
  }

  /** Open both files, or neither is of use. */
  method OpenBoth(pcb: D.Pcb, f0: seq<byte>, f1: seq<byte>)
    returns (ok: bool, fd0: int, fd1: int, ghost x0: Side, ghost x1: Side)
    requires pcb.Valid() && Frame(pcb.img, f0) && Frame(pcb.img, f1)
    modifies pcb.fd
    ensures pcb.Valid() && |old(pcb.fd[..])| == D.NUM_FILE_DESCRIPTOR
    ensures ok <==> CanOpenBoth(pcb.img, old(pcb.fd[..]), f0, f1)
    ensures ok ==>
              && FindEntry(pcb.img, f0) != -1 && FindEntry(pcb.img, f1) != -1
              && Lines(x0.file) == LinesOf(pcb.img, f0) && Lines(x1.file) == LinesOf(pcb.img, f1)
              && Readers(pcb, fd0, fd1, x0, x1) && 2 <= fd0 <= 7 && 2 <= fd1 <= 7
              && x0 == Side(x0.file, 0, 0, ZERO, false) && x1 == Side(x1.file, 0, 0, ZERO, false)
  {
    hide Present, Lines, FindEntry, D.Reading, D.Consistent, Frame;
    fd1 := -1;
    x1 := Side([], 0, 0, ZERO, true);
    ghost var before := pcb.fd[..];
    fd0, x0 := OpenOne(pcb, f0);
    if fd0 < 0 {
      assert TwoFree(before) ==> OneFree(before);
      return false, fd0, fd1, x0, x1;
    }
    ghost var between := pcb.Abs();
    OneMoreFree(before, between.fds, fd0);
    fd1, x1 := OpenOne(pcb, f1);
    ok := fd1 >= 0;
    if ok {
      StillReading(pcb.img, between, pcb.Abs(), fd0, x0.file, 0);
    }
  }

  lemma StartsAtHead(x: Side)
    requires x == Side(x.file, 0, 0, ZERO, false)
    ensures AtHead(x, 0, 0)
  {
    assert x.file[0..] == x.file && Lines(x.file)[0..] == Lines(x.file);
  }

  lemma HeadEof(x: Side, row: nat)
    requires AtHead(x, row, 0)
    ensures x.eof <==> row >= |Lines(x.file)|
    ensures x.eof ==> x.c == NEWLINE
    ensures !x.eof ==> x.c != NEWLINE
  {
    hide Lines;
  }

  /** The end of a row in `add_frames`: close a file that has ended, and set the placeholders. */
  method EndRow(pcb: D.Pcb, fd0: int, fd1: int, eof0: bool, eof1: bool, ghost y0: Side, ghost y1: Side)
    returns (c0: byte, c1: byte)
    requires Readers(pcb, fd0, fd1, y0, y1) && y0.eof == eof0 && y1.eof == eof1 && y0.c == y1.c == NEWLINE
    requires 2 <= fd0 <= 7 && 2 <= fd1 <= 7
    modifies pcb.fd
    ensures Readers(pcb, fd0, fd1, NextRow(y0), NextRow(y1)) && c0 == NextRow(y0).c && c1 == NextRow(y1).c
  {
    hide Contents, Word, FindEntry, CString, ReadResult;
    if eof0 {
      c0 := NEWLINE;
      var closed := pcb.Close(fd0);
      assert pcb.fd[fd1] == old(pcb.fd[fd1]);
    } else {
      c0 := ZERO;
    }
    label First:
    if eof1 {
      c1 := NEWLINE;
      var closed := pcb.Close(fd1);
      assert pcb.fd[fd0] == old@First(pcb.fd[fd0]);
    } else {
      c1 := ZERO;
    }
  }

  /** The outer loop of `add_frames`. */
  method AddRows(pcb: D.Pcb, engine: Engine, fd0: int, fd1: int,
                 ghost start0: Side, ghost start1: Side, ghost h: Heap, ghost b: Board, ghost valid: bool)
    requires Readers(pcb, fd0, fd1, start0, start1) && 2 <= fd0 <= 7 && 2 <= fd1 <= 7
    requires start0 == Side(start0.file, 0, 0, ZERO, false) && start1 == Side(start1.file, 0, 0, ZERO, false)
    requires |b.screen| == PAGE_BYTES && Added(engine, h, b, valid, [])
    modifies pcb, pcb.fd, engine, engine.pool, engine.vmem
    ensures pcb.Valid() && engine.Shaped()
    ensures Added(engine, h, b, valid, AllRequests(Lines(start0.file), Lines(start1.file)))
  {
    hide *;
    ghost var x0, x1 := start0, start1;
    ghost var l0, l1 := Lines(x0.file), Lines(x1.file);
    StartsAtHead(x0);
    StartsAtHead(x1);
    NoRows(l0, l1);
    ghost var users := [];
    var c0, c1, eof0, eof1, row := ZERO, ZERO, false, false, 0;
    while !eof0 || !eof1
      invariant Lines(x0.file) == l0 && Lines(x1.file) == l1
      invariant 0 <= row <= Max(|l0|, |l1|) && AtHead(x0, row, 0) && AtHead(x1, row, 0)
      invariant Readers(pcb, fd0, fd1, x0, x1)
      invariant c0 == x0.c && c1 == x1.c && eof0 == x0.eof && eof1 == x1.eof
      invariant users == Requests(l0, l1, row) && Added(engine, h, b, valid, users)
      decreases Max(|l0|, |l1|) - row
    {
      HeadEof(x0, row);
      HeadEof(x1, row);
      ghost var y0, y1;
      eof0, eof1, y0, y1 := AddRow(pcb, engine, fd0, fd1, c0, c1, eof0, eof1, row, x0, x1, h, b, valid, users);
      OneMoreRow(l0, l1, row);
      users := users + RowRequests(l0, l1, row, Max(|Row(l0, row)|, |Row(l1, row)|));
      c0, c1 := EndRow(pcb, fd0, fd1, eof0, eof1, y0, y1);
      x0, x1 := NextRow(y0), NextRow(y1);
      row := row + 1;
    }
    HeadEof(x0, row);
    HeadEof(x1, row);
    AllRows(l0, l1, row);
    AddedShaped(engine, h, b, valid, users);
    ReadersValid(pcb, fd0, fd1, x0, x1);
  }

  /** `add_frames`.  It ends for every pair of files, and asks for exactly the characters either file
      shows, row by row.  It halts the program exactly when it cannot open both. */
  method AddFrames(pcb: D.Pcb, engine: Engine, f0: seq<byte>, f1: seq<byte>) returns (halted: bool)
    requires pcb.Valid() && engine.Shaped() && Frame(pcb.img, f0) && Frame(pcb.img, f1)
    modifies pcb, pcb.fd, engine, engine.pool, engine.vmem
    ensures pcb.Valid() && engine.Shaped()
    ensures |old(pcb.fd[..])| == D.NUM_FILE_DESCRIPTOR
    ensures halted <==> !CanOpenBoth(pcb.img, old(pcb.fd[..]), f0, f1)
    ensures halted ==> engine.Memory() == old(engine.Memory()) && engine.vmem[..] == old(engine.vmem[..])
    ensures !halted ==>
              Added(engine, old(engine.Memory()), old(BoardOf(engine)), old(engine.Valid()),
                    AllRequests(LinesOf(pcb.img, f0), LinesOf(pcb.img, f1)))
  {
    hide Lines, Contents, FindEntry, Agree, Cells, D.Consistent;
    ghost var h, valid, b := engine.Memory(), engine.Valid(), BoardOf(engine);
    assert Added(engine, h, b, valid, []);
    var ok, fd0, fd1, x0, x1 := OpenBoth(pcb, f0, f1);
    if ok {
      AddRows(pcb, engine, fd0, fd1, x0, x1, h, b, valid);
    }
    halted := !ok;
  }

  lemma NoRows(l0: seq<seq<byte>>, l1: seq<seq<byte>>)
    ensures Requests(l0, l1, 0) == [] && Max(|l0|, |l1|) >= 0
  {
  }

  lemma OneMoreRow(l0: seq<seq<byte>>, l1: seq<seq<byte>>, row: nat)
    ensures Requests(l0, l1, row + 1) ==
            Requests(l0, l1, row) + RowRequests(l0, l1, row, Max(|Row(l0, row)|, |Row(l1, row)|))
    ensures row < |l0| || row < |l1| ==> row < Max(|l0|, |l1|)
  {
  }

  lemma AllRows(l0: seq<seq<byte>>, l1: seq<seq<byte>>, row: nat)
    requires |l0| <= row && |l1| <= row <= Max(|l0|, |l1|)
    ensures Requests(l0, l1, row) == AllRequests(l0, l1)
  {
  }

  lemma AddedShaped(engine: Engine, h: Heap, b: Board, valid: bool, users: seq<Cell>)
    requires |b.screen| == PAGE_BYTES && Added(engine, h, b, valid, users)
    ensures engine.Shaped()
  {
  }

  lemma ReadersValid(pcb: D.Pcb, fd0: int, fd1: int, x0: Side, x1: Side)
    requires Readers(pcb, fd0, fd1, x0, x1)
    ensures pcb.Valid()
  {
  }

  ghost function BoardOf(engine: Engine): (b: Board)
    requires engine.Shaped()
    reads engine, engine.pool, engine.vmem
    ensures |b.screen| == PAGE_BYTES
  {
    Board(if engine.Valid() then engine.List() else [], engine.vmem[..])
  }
}
