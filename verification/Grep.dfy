/**
 The search program.  `DoOneFile` reads a file through a 1024-byte window and carries partial
 lines over; it is proved what it reports of the flat file (`Found`), and exactly when those are the
 lines that contain the pattern (`RightExactlyWhen`).
 */
module Grep {
  import opened Bytes
  import opened Basics
  import opened Text
  import opened FileSystem
  import opened Descriptors

  const BUFSIZE := 1024

  // ----- What is to be reported -----

  ghost predicate NulFree(s: seq<byte>) { NUL !in s }

  ghost predicate NewlineFree(s: seq<byte>) { NEWLINE !in s }

  ghost predicate Contains(line: seq<byte>, s: seq<byte>) {
    exists k :: MatchesAt(line, s, k)
  }

  predicate MatchesAt(line: seq<byte>, s: seq<byte>, k: nat) {
    k + |s| <= |line| && line[k..k + |s|] == s
  }

  /** The lines that contain a pattern, each once and in order: what the program is for. */
  ghost function Containing(lines: seq<seq<byte>>, s: seq<byte>): seq<seq<byte>> {
    if lines == [] then []
    else (if Contains(lines[0], s) then [lines[0]] else []) + Containing(lines[1..], s)
  }

  /** The program compares the pattern's first character, which is signed, with the text's unsigned ones:
      only a pattern that starts below 128 is ever found. */
  predicate Findable(s: seq<byte>) {
    s != [] && s[0] < 128
  }

  /** The program's test. */
  ghost predicate Matches(line: seq<byte>, s: seq<byte>) {
    Findable(s) && Contains(line, s)
  }

  ghost function Reports(lines: seq<seq<byte>>, s: seq<byte>): (reports: seq<seq<byte>>)
    ensures forall line :: line in reports ==> line in lines
  {
    if lines == [] then []
    else (if Matches(lines[0], s) then [lines[0]] else []) + Reports(lines[1..], s)
  }

  /** What the program takes for the lines: from the start of a line, 1024 bytes without a newline are
      cut off as a line of their own. */
  function Pieces(file: seq<byte>): (pieces: seq<seq<byte>>)
    ensures |pieces| > 0 && forall piece :: piece in pieces ==> |piece| <= BUFSIZE
    decreases |file|
  {
    var i := FirstNewline(file);
    if i < |file| && i < BUFSIZE then [file[..i]] + Pieces(file[i + 1..])
    else if |file| >= BUFSIZE then [file[..BUFSIZE]] + Pieces(file[BUFSIZE..])
    else [file]
  }

  /** What the program reports for a file. */
  ghost function Found(file: seq<byte>, s: seq<byte>): seq<seq<byte>> {
    Reports(Pieces(file), s)
  }

  /** The window's buffer is one byte longer than the window, and not initialised.  If that byte is a
      newline, a full window is taken to end with a line, until the byte is overwritten: by the first
      full window that does not end with a newline itself. */
  ghost function Outcome(newlineBehind: bool, file: seq<byte>, s: seq<byte>): seq<seq<byte>>
    decreases |file|
  {
    if newlineBehind && |file| >= BUFSIZE then
      Found(file[..BUFSIZE], s) + Outcome(file[BUFSIZE - 1] == NEWLINE, file[BUFSIZE..], s)
    else Found(file, s)
  }

  /** Where the first full window that does not end with a newline ends; the file's end if there is none. */
  function CutPoint(file: seq<byte>): (c: nat)
    ensures c <= |file|
    decreases |file|
  {
    if |file| < BUFSIZE then |file|
    else if file[BUFSIZE - 1] != NEWLINE then BUFSIZE
    else BUFSIZE + CutPoint(file[BUFSIZE..])
  }

  /** It is a multiple of 1024: the first with no byte 10 in front of it. */
  lemma {:induction false} CutPointIs(file: seq<byte>, k: nat)
    requires 0 < k && 1024 * k <= |file|
    ensures 1024 * k < CutPoint(file) ==> file[1024 * k - 1] == 10
    ensures 1024 * k == CutPoint(file) < |file| ==> file[1024 * k - 1] != 10
    ensures CutPoint(file) == |file| || CutPoint(file) % 1024 == 0
    decreases |file|
  {
    if file[1023] == 10 && |file| >= 2048 {
      if k > 1 {
        assert file[1024 * k - 1] == file[1024..][1024 * (k - 1) - 1];
        CutPointIs(file[1024..], k - 1);
      } else {
        CutPointIs(file[1024..], 1);
      }
    }
  }

  /** Behind a newline the reports start afresh. */
  lemma {:induction false} FoundAppend(a: seq<byte>, b: seq<byte>, s: seq<byte>)
    requires a != [] && a[|a| - 1] == NEWLINE
    ensures Found(a + b, s) == Found(a, s) + Found(b, s)
    decreases |a|
  {
    hide Found, Matches;
    var i := FirstNewline(a);
    assert a[..|a|] == a && a[|a| - 1] in a;
    var n, from := if i < BUFSIZE then i else BUFSIZE, if i < BUFSIZE then i + 1 else BUFSIZE;
    assert a[..n] == a[..i][..n] == (a + b)[..n];
    assert (a + b)[from..] == a[from..] + b;
    FirstPiece(a, n, a[from..], s);
    FirstPiece(a + b, n, a[from..] + b, s);
    if from == |a| {
      NothingFound(s);
      assert a[from..] + b == b;
    } else {
      FoundAppend(a[from..], b, s);
    }
  }

  /** So a newline behind the window cuts the file once, at one place, and matters only to the line there. */
  lemma {:induction false} CutOnce(file: seq<byte>, s: seq<byte>)
    ensures var c := CutPoint(file);
            Outcome(true, file, s) == Found(file[..c], s) + Found(file[c..], s)
    decreases |file|
  {
    hide Found;
    var c := CutPoint(file);
    if |file| < BUFSIZE {
      assert file[..c] == file && file[c..] == [];
      NothingFound(s);
    } else if file[BUFSIZE - 1] == NEWLINE {
      var front, rest := file[..BUFSIZE], file[BUFSIZE..];
      CutOnce(rest, s);
      FoundAppend(front, rest[..c - BUFSIZE], s);
      assert file[..c] == front + rest[..c - BUFSIZE] && file[c..] == rest[c - BUFSIZE..];
    }
  }

  /** What the program is for. */
  ghost predicate Right(file: seq<byte>, s: seq<byte>) {
    Found(file, s) == Containing(Lines(file), s)
  }

  /** A line that the window cannot hold does not contain the pattern. */
  ghost predicate LongLinesWithout(lines: seq<seq<byte>>, s: seq<byte>) {
    forall line :: line in lines && |line| > BUFSIZE ==> !Contains(line, s)
  }

  /** A line contains a pattern when it is something, the pattern and something again. */
  lemma ContainsIs(line: seq<byte>, s: seq<byte>)
    ensures Contains(line, s) <==> exists a, b :: line == a + s + b
  {
    if k: nat :| MatchesAt(line, s, k) {
      assert line == line[..k] + s + line[k + |s|..];
    }
    if a, b :| line == a + s + b {
      assert line[|a|..|a| + |s|] == s;
      assert MatchesAt(line, s, |a|);
    }
  }

  /** The lines that contain it are picked one by one, in order. */
  lemma ContainingIs(line: seq<byte>, lines: seq<seq<byte>>, s: seq<byte>)
    ensures Containing([], s) == []
    ensures Containing([line] + lines, s) ==
            (if exists a, b :: line == a + s + b then [line] else []) + Containing(lines, s)
  {
    ContainsIs(line, s);
    assert ([line] + lines)[1..] == lines;
  }

  lemma {:induction false} ReportsAreContaining(lines: seq<seq<byte>>, s: seq<byte>)
    requires Findable(s)
    ensures Reports(lines, s) == Containing(lines, s)
  {
    if lines != [] {
      ReportsAreContaining(lines[1..], s);
    }
  }

  lemma {:induction false} IsContaining(lines: seq<seq<byte>>, line: seq<byte>, s: seq<byte>)
    requires line in lines && Contains(line, s)
    ensures line in Containing(lines, s)
  {
    if line != lines[0] {
      IsContaining(lines[1..], line, s);
    }
  }

  lemma {:induction false} NoneContaining(lines: seq<seq<byte>>, s: seq<byte>)
    requires forall line :: line in lines ==> !Contains(line, s)
    ensures Containing(lines, s) == []
  {
    if lines != [] {
      assert lines[0] in lines && forall line :: line in lines[1..] ==> line in lines;
      NoneContaining(lines[1..], s);
    }
  }

  lemma PartContains(line: seq<byte>, from: nat, to: nat, s: seq<byte>)
    requires from <= to <= |line| && Contains(line[from..to], s)
    ensures Contains(line, s)
  {
    var k: nat :| MatchesAt(line[from..to], s, k);
    var part := line[from..to];
    assert k + |s| <= |part| && part[k..k + |s|] == s;
    var at := from + k;
    forall j | 0 <= j < |s| ensures line[at + j] == s[j] {
      assert s[j] == part[k..k + |s|][j] == part[k + j];
    }
    assert line[at..at + |s|] == s;
    assert MatchesAt(line, s, at);
  }

  lemma {:induction false} PiecesAreLines(file: seq<byte>, s: seq<byte>)
    requires LongLinesWithout(Lines(file), s)
    ensures Reports(Pieces(file), s) == Reports(Lines(file), s)
    decreases |file|
  {
    var i := FirstNewline(file);
    LinesIs(file);
    if i > BUFSIZE {
      LongLineWithout(file, s);
      PiecesAreLines(file[BUFSIZE..], s);
    } else if i < |file| {
      PiecesAfterLine(file, s);
      OthersWithout(file, s);
      PiecesAreLines(file[i + 1..], s);
      ReportsCons(file[..i], Lines(file[i + 1..]), s);
    } else {
      LastPiece(file, s);
    }
  }

  lemma PiecesIs(file: seq<byte>)
    ensures var i := FirstNewline(file);
            Pieces(file) ==
            if i < |file| && i < 1024 then [file[..i]] + Pieces(file[i + 1..])
            else if |file| >= 1024 then [file[..1024]] + Pieces(file[1024..])
            else [file]
  {
    hide *;
    PiecesUnfold(file, FirstNewline(file));
  }

  lemma PiecesUnfold(file: seq<byte>, i: nat)
    requires i == FirstNewline(file)
    ensures i <= |file|
    ensures Pieces(file) ==
            if i < |file| && i < 1024 then [file[..i]] + Pieces(file[i + 1..])
            else if |file| >= 1024 then [file[..1024]] + Pieces(file[1024..])
            else [file]
  {
    hide FirstNewline;
  }

  /** A line of at most 1024 bytes is a piece; an empty piece may follow it, and is not reported. */
  lemma PiecesAfterLine(file: seq<byte>, s: seq<byte>)
    requires FirstNewline(file) <= BUFSIZE && FirstNewline(file) < |file|
    ensures var i := FirstNewline(file);
            Reports(Pieces(file), s)
            == (if Matches(file[..i], s) then [file[..i]] else []) + Reports(Pieces(file[i + 1..]), s)
  {
    hide Reports, Matches, Pieces;
    var i := FirstNewline(file);
    PiecesIs(file);
    if i == BUFSIZE {
      EmptyPiece(file[BUFSIZE..], s);
      assert file[BUFSIZE..][1..] == file[i + 1..];
      ReportsCons(file[..i], Pieces(file[BUFSIZE..]), s);
    } else {
      ReportsCons(file[..i], Pieces(file[i + 1..]), s);
    }
  }

  lemma LastPiece(file: seq<byte>, s: seq<byte>)
    requires FirstNewline(file) == |file| <= BUFSIZE
    ensures Reports(Pieces(file), s) == Reports([file], s)
  {
    hide Reports, Matches, Pieces;
    PiecesIs(file);
    if |file| == BUFSIZE {
      assert file[..BUFSIZE] == file && file[BUFSIZE..] == [] && [file] == [file] + [];
      NothingFound(s);
      ReportsCons(file, Pieces([]), s);
      ReportsCons(file, [], s);
    }
  }

  /** The lines behind the first. */
  lemma OthersWithout(file: seq<byte>, s: seq<byte>)
    requires FirstNewline(file) < |file| && LongLinesWithout(Lines(file), s)
    ensures LongLinesWithout(Lines(file[FirstNewline(file) + 1..]), s)
  {
    hide Lines, FirstNewline, Contains;
    LinesIs(file);
    var rest := Lines(file[FirstNewline(file) + 1..]);
    assert forall line :: line in rest ==> line in Lines(file);
  }

  /** Cutting the front off a line that is too long to be held and does not contain the pattern. */
  lemma LongLineWithout(file: seq<byte>, s: seq<byte>)
    requires FirstNewline(file) > BUFSIZE && LongLinesWithout(Lines(file), s)
    ensures LongLinesWithout(Lines(file[BUFSIZE..]), s)
    ensures Reports(Pieces(file), s) == Reports(Pieces(file[BUFSIZE..]), s)
    ensures Reports(Lines(file), s) == Reports(Lines(file[BUFSIZE..]), s)
  {
    hide Lines, Pieces, Reports, Contains, Matches, FirstNewline;
    PiecesIs(file);
    var i := FirstNewline(file);
    var front, back, rest := file[..BUFSIZE], file[BUFSIZE..i], file[BUFSIZE..];
    assert Pieces(file) == [front] + Pieces(rest);
    var others := LongLine(file);
    hide *;
    var first := file[..i];
    assert front == first[0..BUFSIZE] && back == first[BUFSIZE..i];
    assert first in Lines(file);
    if Contains(back, s) { PartContains(first, BUFSIZE, i, s); }
    if Contains(front, s) { PartContains(first, 0, BUFSIZE, s); }
    assert !Matches(front, s) && !Matches(first, s) && !Matches(back, s) by { MatchesContains(s); }
    ReportsCons(front, Pieces(rest), s);
    ReportsCons(first, others, s);
    ReportsCons(back, others, s);
    forall line | line in Lines(rest) && |line| > BUFSIZE ensures !Contains(line, s) {
      assert line == back || line in Lines(file);
    }
  }

  lemma MatchesContains(s: seq<byte>)
    ensures forall line :: Matches(line, s) ==> Contains(line, s)
  {
  }

  /** Cutting the front off a line leaves the other lines. */
  lemma LongLine(file: seq<byte>) returns (others: seq<seq<byte>>)
    requires FirstNewline(file) > BUFSIZE
    ensures Lines(file) == [file[..FirstNewline(file)]] + others
    ensures Lines(file[BUFSIZE..]) == [file[BUFSIZE..FirstNewline(file)]] + others
  {
    hide Lines;
    var i, rest := FirstNewline(file), file[BUFSIZE..];
    LinesIs(file);
    assert rest[..i - BUFSIZE] == file[BUFSIZE..i];
    assert forall k :: 0 <= k < i - BUFSIZE ==> rest[k] == file[..i][BUFSIZE + k];
    NewlineAt(rest, i - BUFSIZE);
    LinesIs(rest);
    others := if i < |file| then Lines(file[i + 1..]) else [];
    assert i < |file| ==> rest[i - BUFSIZE + 1..] == file[i + 1..];
    assert i == |file| ==> file[..i] == file && rest[..i - BUFSIZE] == rest;
  }

  lemma ReportsCons(line: seq<byte>, lines: seq<seq<byte>>, s: seq<byte>)
    ensures Reports([line] + lines, s) == (if Matches(line, s) then [line] else []) + Reports(lines, s)
  {
    assert ([line] + lines)[1..] == lines;
  }

  lemma EmptyPiece(file: seq<byte>, s: seq<byte>)
    requires file != [] && file[0] == NEWLINE
    ensures Reports(Pieces(file), s) == Reports(Pieces(file[1..]), s)
  {
    assert FirstNewline(file) == 0;
    assert Pieces(file) == [file[..0]] + Pieces(file[1..]);
  }

  /** The program is right about a file and a pattern exactly when the pattern can be found at all and
      fits the lines it is in, or is in no line. */
  lemma RightExactlyWhen(file: seq<byte>, s: seq<byte>)
    ensures Right(file, s) <==>
            forall line :: line in Lines(file) && Contains(line, s) ==> s != [] && s[0] < 128 && |line| <= 1024
  {
    hide Reports, Containing, Lines, Contains, Pieces, Matches;
    if line :| line in Lines(file) && Contains(line, s) && !(Findable(s) && |line| <= BUFSIZE) {
      IsContaining(Lines(file), line, s);
      if !Findable(s) { NothingReported(Pieces(file), s); }
      assert line !in Found(file, s);
    } else if Findable(s) {
      PiecesAreLines(file, s);
      ReportsAreContaining(Lines(file), s);
    } else {
      NothingReported(Pieces(file), s);
      NoneContaining(Lines(file), s);
    }
  }

  /** No byte of the line can start a pattern that is found. */
  ghost predicate Unfindable(line: seq<byte>) {
    forall k :: 0 <= k < |line| ==> line[k] >= 128
  }

  /** The program is right about every findable pattern exactly when every line of more than 1024 bytes
      consists of bytes from 128 on; so it is when no line is that long. */
  lemma RightForEvery(file: seq<byte>)
    requires NulFree(file)
    ensures (forall s :: Findable(s) && NulFree(s) ==> Right(file, s))
            <==> forall line :: line in Lines(file) && |line| > 1024 ==> Unfindable(line)
  {
    hide Right, Lines;
    if forall line :: line in Lines(file) && |line| > BUFSIZE ==> Unfindable(line) {
      forall s | Findable(s) && NulFree(s) ensures Right(file, s) {
        forall line | line in Lines(file) && Contains(line, s) ensures |line| <= BUFSIZE {
          var k: nat :| MatchesAt(line, s, k);
          assert line[k..k + |s|][0] == line[k];
        }
        RightExactlyWhen(file, s);
      }
    } else {
      var line :| line in Lines(file) && |line| > BUFSIZE && !Unfindable(line);
      var k :| 0 <= k < |line| && line[k] < 128;
      var s := [line[k]];
      LinesHoldNothingElse(file, line);
      assert line[k] in line && NulFree(s);
      assert line[k..k + |s|] == s && MatchesAt(line, s, k);
      RightExactlyWhen(file, s);
    }
  }

  /** An empty pattern is in every line, and the program finds it in none. */
  lemma EmptyPattern(file: seq<byte>)
    ensures Found(file, []) == [] && Containing(Lines(file), []) == Lines(file) != []
  {
    NothingReported(Pieces(file), []);
    EverythingContains(Lines(file));
  }

  /** Nor does it find a pattern that starts with a byte from 128 on; that is right exactly when no
      line contains it. */
  lemma HighPattern(file: seq<byte>, s: seq<byte>)
    requires s != [] && s[0] >= 128
    ensures Found(file, s) == []
    ensures Right(file, s) <==> forall line :: line in Lines(file) ==> !Contains(line, s)
  {
    NothingReported(Pieces(file), s);
    RightExactlyWhen(file, s);
  }

  /** For example a file of one such byte, searched for that byte. */
  lemma HighPatternMissed()
    ensures Found([233], [233]) == [] && Containing(Lines([233]), [233]) == [[233]]
  {
    hide Pieces, Reports;
    HighPattern([233], [233]);
    LinesLast([233]);
    assert MatchesAt([233], [233], 0);
    hide *;
    OneContaining([233], [233]);
  }

  lemma OneContaining(line: seq<byte>, s: seq<byte>)
    requires Contains(line, s)
    ensures Containing([line], s) == [line]
  {
    assert Containing([line][1..], s) == [];
  }

  lemma {:induction false} NothingReported(lines: seq<seq<byte>>, s: seq<byte>)
    requires !Findable(s)
    ensures Reports(lines, s) == []
  {
    if lines != [] {
      NothingReported(lines[1..], s);
    }
  }

  lemma {:induction false} EverythingContains(lines: seq<seq<byte>>)
    ensures Containing(lines, []) == lines
  {
    if lines != [] {
      assert MatchesAt(lines[0], [], 0);
      EverythingContains(lines[1..]);
      assert lines == [lines[0]] + lines[1..];
    }
  }

  lemma {:induction false} LinesHoldNothingElse(file: seq<byte>, line: seq<byte>)
    requires line in Lines(file)
    ensures forall b :: b in line ==> b in file
    decreases |file|
  {
    LinesUnfold(file);
    var i := FirstNewline(file);
    if line != Lines(file)[0] {
      LinesHoldNothingElse(file[i + 1..], line);
    }
  }

  lemma NothingFound(s: seq<byte>)
    ensures Found([], s) == Reports([], s) == []
  {
    assert Pieces([]) == [[]] + [];
    ReportsCons([], [], s);
  }

  /** A byte as the `char` that a pattern is made of. */
  function Signed(b: byte): int {
    if b < 128 then b as int else b as int - 256
  }

  // ----- The library routines, on the window -----

  /** `ece391_strncmp` of the text at `data + at` with all of `s`; `end` is where the text ends. */
  method Strncmp(data: array<byte>, at: nat, s: seq<byte>, ghost end: nat) returns (r: int)
    requires at <= end < data.Length && data[end] == NUL && NulFree(s)
    ensures r == 0 <==> at + |s| <= end && data[at..at + |s|] == s
  {
    var n := |s|;
    if n == 0 {
      return 0;
    }
    var i := 0;
    while data[at + i] == s[i]
      invariant 0 <= i < |s| && n == |s| - i && at + i <= end
      invariant data[at..at + i] == s[..i]
      decreases n
    {
      n := n - 1;
      if n == 0 {
        return 0;
      }
      i := i + 1;
    }
    assert at + |s| <= end ==> data[at..at + |s|][i] == data[at + i];
    return data[at + i] as int - s[i] as int;
  }

  /** `ece391_strcpy (data, data + from)` of a text that ends at `end`. */
  method StrcpyDown(data: array<byte>, from: nat, ghost end: nat)
    requires 0 < from <= end < data.Length && data[end] == NUL
    requires forall j :: from <= j < end ==> data[j] != NUL
    modifies data
    ensures forall j :: 0 <= j <= end - from ==> data[j] == old(data[from + j])
    ensures forall j :: end - from < j < data.Length ==> data[j] == old(data[j])
  {
    ghost var was := data[..];
    var i := 0;
    while true
      invariant 0 <= i <= end - from
      invariant forall j :: 0 <= j < i ==> data[j] == was[from + j]
      invariant forall j :: i <= j < data.Length ==> data[j] == was[j]
      decreases end - from - i
    {
      data[i] := data[from + i];
      if data[i] == NUL {
        break;
      }
      i := i + 1;
    }
  }

  /** The inner search: is the pattern anywhere in `data[lineStart..lineEnd]`, which ends with a NUL? */
  method SearchLine(data: array<byte>, lineStart: nat, lineEnd: nat, s: seq<byte>) returns (found: bool)
    requires lineStart <= lineEnd < data.Length && data[lineEnd] == NUL
    requires NulFree(s) && NulFree(data[lineStart..lineEnd])
    ensures found <==> Matches(data[lineStart..lineEnd], s)
  {
    ghost var line := data[lineStart..lineEnd];
    var first := if s == [] then 0 else Signed(s[0]);
    for check := lineStart to lineEnd
      invariant Findable(s) ==> forall k :: 0 <= k < check - lineStart ==> !MatchesAt(line, s, k)
    {
      assert line[check - lineStart] in line;
      if check + |s| <= lineEnd {
        Subslice(data[..], lineStart, lineEnd, check - lineStart, check - lineStart + |s|);
      }
      if first == data[check] as int {
        var differ := Strncmp(data, check, s, lineEnd);
        if differ == 0 {
          assert MatchesAt(line, s, check - lineStart);
          return true;
        }
      }
    }
    return false;
  }

  method FindLineEnd(data: array<byte>, lineStart: nat, last: nat) returns (lineEnd: nat)
    requires lineStart <= last <= data.Length
    ensures lineStart <= lineEnd <= last && NewlineFree(data[lineStart..lineEnd])
    ensures lineEnd < last ==> data[lineEnd] == NEWLINE
  {
    lineEnd := lineStart;
    while lineEnd < last && NEWLINE != data[lineEnd]
      invariant lineStart <= lineEnd <= last && NewlineFree(data[lineStart..lineEnd])
    {
      lineEnd := lineEnd + 1;
    }
  }

  /** A line that runs to the end of the window without a newline, and is not carried over, is the
      last of the file or fills the window. */
  lemma AtEnd(window: seq<byte>, unread: seq<byte>, lineStart: nat, last: nat, cnt: nat, newlineBehind: bool)
    requires |window| == last - lineStart && last <= BUFSIZE
    requires cnt == 0 || last < BUFSIZE || newlineBehind ==> unread == []
    requires cnt == 0 || lineStart == 0 || last < BUFSIZE || newlineBehind
    ensures unread == [] || |window| == BUFSIZE
  {
  }

  /** Move the partial line at `lineStart` to the front of the window.  It arrives whole when there is no
      NUL in it; otherwise the copy stops at the first, and what was in the window stays behind that. */
  method CarryLine(data: array<byte>, lineStart: nat, last: nat)
    requires 0 < lineStart <= last < data.Length
    modifies data
    ensures var line := old(data[lineStart..last]);
            var z := |CString(line)|;
            && data[..z] == CString(line) && data[z] == NUL
            && (forall j :: z < j < data.Length ==> data[j] == if j == last then NUL else old(data[j]))
            && (NulFree(line) ==> data[..last - lineStart] == line)
    ensures data[data.Length - 1] == if last == data.Length - 1 then NUL else old(data[data.Length - 1])
  {
    ghost var was, line := data[..], data[lineStart..last];
    ghost var z := |CString(line)|;
    if NulFree(line) { CStringIs(line, line); }
    hide CString, NulFree;
    data[last] := NUL;
    forall j | lineStart <= j < lineStart + z ensures data[j] == was[j] == CString(line)[j - lineStart] != NUL {
      assert CString(line)[j - lineStart] in CString(line);
    }
    StrcpyDown(data, lineStart, lineStart + z);
    assert data[..z] == CString(line);
  }

  /** Search one line and report it if it matches. */
  method ReportLine(data: array<byte>, lineStart: nat, lineEnd: nat, s: seq<byte>, ghost last: nat)
    returns (reports: seq<seq<byte>>)
    requires lineStart <= lineEnd <= last < data.Length && NulFree(s) && NulFree(data[lineStart..lineEnd])
    modifies data
    ensures reports == if Matches(old(data[lineStart..lineEnd]), s) then [old(data[lineStart..lineEnd])] else []
    ensures data[..] == old(data[..])[lineEnd := NUL]
    ensures lineEnd < last ==> data[lineEnd + 1..last] == old(data[lineEnd + 1..last])
  {
    data[lineEnd] := NUL;
    assert data[lineStart..lineEnd] == old(data[lineStart..lineEnd]);
    var found := SearchLine(data, lineStart, lineEnd, s);
    reports := if found then [data[lineStart..lineEnd]] else [];
  }

  /** What stands behind a line of n bytes and its newline. */
  ghost function Behind(window: seq<byte>, n: nat): seq<byte>
    requires n <= |window|
  {
    if n < |window| then window[n + 1..] else []
  }

  /** Reporting the line at the front of the window leaves the reports of what stands behind it. */
  lemma LineStep(window: seq<byte>, unread: seq<byte>, n: nat, s: seq<byte>)
    requires n <= |window| <= BUFSIZE && NewlineFree(window[..n]) && NulFree(window)
    requires if n < |window| then window[n] == NEWLINE else unread == [] || n == BUFSIZE
    ensures NulFree(Behind(window, n)) && NulFree(window[..n])
    ensures Found(window + unread, s)
            == (if Matches(window[..n], s) then [window[..n]] else []) + Found(Behind(window, n) + unread, s)
  {
    var text, rest := window + unread, Behind(window, n) + unread;
    assert text[..n] == window[..n];
    FirstPiece(text, n, rest, s) by {
      if n < |window| {
        assert text[n + 1..] == rest;
      } else {
        assert text[n..] == unread == rest;
      }
    }
  }

  lemma FirstPiece(text: seq<byte>, n: nat, rest: seq<byte>, s: seq<byte>)
    requires n <= |text| && n <= BUFSIZE && NewlineFree(text[..n])
    requires (n < BUFSIZE && n < |text| && text[n] == NEWLINE && rest == text[n + 1..])
             || (rest == text[n..] && (n == BUFSIZE || rest == []))
    ensures Found(text, s) == (if Matches(text[..n], s) then [text[..n]] else []) + Found(rest, s)
  {
    hide Matches;
    if n < BUFSIZE && n < |text| && text[n] == NEWLINE && rest == text[n + 1..] {
      NewlineAt(text, n);
      ReportsCons(text[..n], Pieces(rest), s);
    } else if n == BUFSIZE {
      var i := FirstNewline(text);
      assert forall k :: 0 <= k < n ==> text[k] == text[..n][k];
      ReportsCons(text[..n], Pieces(rest), s);
    } else {
      assert text[..n] == text;
      NewlineAt(text, n);
      assert Pieces(text) == [text] + [];
      ReportsCons(text, [], s);
      NothingFound(s);
    }
  }

  /** One line of the window, from `lineStart` to `lineEnd`. */
  method TakeLine(data: array<byte>, lineStart: nat, lineEnd: nat, ghost last: nat, s: seq<byte>,
                  ghost window: seq<byte>, ghost unread: seq<byte>)
    returns (reports: seq<seq<byte>>)
    requires data.Length == BUFSIZE + 1 && lineStart <= lineEnd <= last <= BUFSIZE
    requires window == data[lineStart..last] && NulFree(window) && NulFree(s)
    requires NewlineFree(data[lineStart..lineEnd])
    requires if lineEnd < last then data[lineEnd] == NEWLINE else unread == [] || lineEnd - lineStart == BUFSIZE
    modifies data
    ensures var n := lineEnd - lineStart;
            && NulFree(Behind(window, n))
            && Found(window + unread, s) == reports + Found(Behind(window, n) + unread, s)
            && Behind(window, n) == if lineEnd < last then data[lineEnd + 1..last] else []
    ensures data[BUFSIZE] == if lineEnd == BUFSIZE then NUL else old(data[BUFSIZE])
    ensures data[BUFSIZE - 1] == if lineEnd == BUFSIZE - 1 then NUL else old(data[BUFSIZE - 1])
  {
    hide Found, Matches, NulFree, NewlineFree, Behind;
    ghost var n := lineEnd - lineStart;
    Slice(data[..], lineStart, last, n);
    if lineEnd < last {
      Slice(data[..], lineStart, last, n + 1);
    }
    LineStep(window, unread, n, s);
    BehindIs(window, n);
    ghost var was := data[..];
    reports := ReportLine(data, lineStart, lineEnd, s, last);
    assert data[..][BUFSIZE] == data[BUFSIZE] && data[..][BUFSIZE - 1] == data[BUFSIZE - 1];
    assert was[BUFSIZE] == old(data[BUFSIZE]) && was[BUFSIZE - 1] == old(data[BUFSIZE - 1]);
  }

  /** The lines from `lineStart` on are still to be searched. */
  ghost predicate Scanning(buf: seq<byte>, was: seq<byte>, lineStart: nat, last: nat, window: seq<byte>) {
    && |buf| == |was| == BUFSIZE + 1 && lineStart <= last <= BUFSIZE && (lineStart == last ==> last == 0)
    && window == buf[lineStart..last] && NulFree(window)
    && buf[BUFSIZE] == was[BUFSIZE] && (last == BUFSIZE ==> buf[BUFSIZE - 1] == was[BUFSIZE - 1])
  }

  /** What a pass does to the byte behind the window. */
  ghost predicate Scanned(buf: seq<byte>, was: seq<byte>, last: nat) {
    && |buf| == |was| == BUFSIZE + 1
    && (was[BUFSIZE] != NEWLINE ==> buf[BUFSIZE] != NEWLINE)
    && (last == BUFSIZE && was[BUFSIZE] == NEWLINE ==> (buf[BUFSIZE] == NEWLINE <==> was[BUFSIZE - 1] == NEWLINE))
  }

  /** One turn of the inner loop: a line is searched, or a partial one is carried over. */
  method NextLine(data: array<byte>, lineStart: nat, last: nat, cnt: nat, s: seq<byte>,
                  ghost was: seq<byte>, ghost window: seq<byte>, ghost unread: seq<byte>)
    returns (carried: bool, next: nat, reports: seq<seq<byte>>, ghost window': seq<byte>)
    requires Scanning(data[..], was, lineStart, last, window) && NulFree(s)
    requires cnt == 0 || last < BUFSIZE || was[BUFSIZE] == NEWLINE ==> unread == []
    modifies data
    ensures Found(window + unread, s) == reports + Found(window' + unread, s)
    ensures carried ==>
              && 0 < lineStart <= last && cnt != 0 && (last == BUFSIZE ==> was[BUFSIZE] != NEWLINE)
              && data[..last - lineStart] == window' && NulFree(window') && Scanned(data[..], was, last)
    ensures !carried && next < last ==> lineStart < next && Scanning(data[..], was, next, last, window')
    ensures !carried && next >= last ==> window' == [] && Scanned(data[..], was, last)
  {
    hide Found, Matches, NulFree, NewlineFree, Behind, CString;
    var lineEnd := FindLineEnd(data, lineStart, last);
    if NEWLINE != data[lineEnd] && 0 != cnt && lineStart != 0 {
      // A partial line: move it to the front and read on behind it.
      CarryLine(data, lineStart, last);
      assert data[..last - lineStart] == window;
      return true, 0, [], window;
    }
    if lineEnd == last {
      AtEnd(window, unread, lineStart, last, cnt, data[BUFSIZE] == NEWLINE);
      LastIsNone(data[lineStart..lineEnd]);
    }
    reports := TakeLine(data, lineStart, lineEnd, last, s, window, unread);
    carried, next, window' := false, lineEnd + 1, Behind(window, lineEnd - lineStart);
  }

  /** One pass over the window.  `unread` is what the file still holds; a window that is not full, or
      a read of nothing, means that it holds no more.  What is left at the front of the window and
      what is still unread together hold the lines not reported yet.  With a newline behind it, a full
      window is used up. */
  method ScanWindow(data: array<byte>, last: nat, cnt: nat, s: seq<byte>, ghost unread: seq<byte>)
    returns (left: nat, reports: seq<seq<byte>>)
    requires data.Length == BUFSIZE + 1 && last <= BUFSIZE
    requires NulFree(s) && NulFree(data[..last])
    requires cnt == 0 || last < BUFSIZE || data[BUFSIZE] == NEWLINE ==> unread == []
    modifies data
    ensures left < BUFSIZE && NulFree(data[..left])
    ensures cnt == 0 ==> left == 0
    ensures old(data[BUFSIZE]) != NEWLINE ==> data[BUFSIZE] != NEWLINE
    ensures last == BUFSIZE && old(data[BUFSIZE]) == NEWLINE ==>
              left == 0 && (data[BUFSIZE] == NEWLINE <==> old(data[BUFSIZE - 1]) == NEWLINE)
    ensures reports + Found(data[..left] + unread, s) == old(Found(data[..last] + unread, s))
  {
    hide Found, Scanning, Scanned, Matches, NulFree;
    ghost var was, window := data[..], data[..last];
    StartScanning(was, last);
    var lineStart := 0;
    reports := [];
    while true
      invariant Scanning(data[..], was, lineStart, last, window)
      invariant reports + Found(window + unread, s) == old(Found(data[..last] + unread, s))
      decreases last - lineStart
    {
      var carried, next, reported;
      ghost var window';
      carried, next, reported, window' := NextLine(data, lineStart, last, cnt, s, was, window, unread);
      reports, window := reports + reported, window';
      if carried {
        EndScanning(data[..], was, last);
        return last - lineStart, reports;
      }
      lineStart := next;
      if lineStart >= last {
        EndScanning(data[..], was, last);
        assert data[..0] == window;
        return 0, reports;
      }
    }
  }

  lemma StartScanning(was: seq<byte>, last: nat)
    requires |was| == BUFSIZE + 1 && last <= BUFSIZE && NulFree(was[..last])
    ensures Scanning(was, was, 0, last, was[..last])
  {
    assert was[..last] == was[0..last];
  }

  lemma EndScanning(buf: seq<byte>, was: seq<byte>, last: nat)
    requires Scanned(buf, was, last)
    ensures |buf| == |was| == BUFSIZE + 1 && NulFree([])
    ensures was[BUFSIZE] != NEWLINE ==> buf[BUFSIZE] != NEWLINE
    ensures last == BUFSIZE && was[BUFSIZE] == NEWLINE ==> (buf[BUFSIZE] == NEWLINE <==> was[BUFSIZE - 1] == NEWLINE)
  {
  }

  lemma LastIsNone(line: seq<byte>)
    requires NewlineFree(line)
    ensures line != [] ==> line[|line| - 1] != NEWLINE
  {
  }

  /** The pass, whatever is behind the window. */
  method Pass(data: array<byte>, last: nat, cnt: nat, s: seq<byte>, ghost unread: seq<byte>)
    returns (left: nat, reports: seq<seq<byte>>)
    requires data.Length == BUFSIZE + 1 && last <= BUFSIZE && NulFree(s) && NulFree(data[..last])
    requires cnt == 0 || last < BUFSIZE ==> unread == []
    modifies data
    ensures left < BUFSIZE && NulFree(data[..left]) && (cnt == 0 ==> left == 0)
    ensures reports + Outcome(data[BUFSIZE] == NEWLINE, data[..left] + unread, s)
            == old(Outcome(data[BUFSIZE] == NEWLINE, data[..last] + unread, s))
  {
    hide Found, NulFree;
    ghost var text := data[..last] + unread;
    if last == BUFSIZE && data[BUFSIZE] == NEWLINE {
      assert text[..BUFSIZE] == data[..last] + [] && text[BUFSIZE..] == unread;
      left, reports := ScanWindow(data, last, cnt, s, []);
      NothingFound(s);
      assert data[..0] + [] == [] && data[..0] + unread == unread;
    } else {
      left, reports := ScanWindow(data, last, cnt, s, unread);
    }
  }

  lemma BehindIs(window: seq<byte>, n: nat)
    requires n <= |window|
    ensures Behind(window, n) == if n < |window| then window[n + 1..] else []
  {
  }

  lemma ReadingFacts(pcb: Pcb, fd: int, file: seq<byte>, at: nat)
    requires Reading(pcb.img, pcb.Abs(), fd, file, at)
    ensures pcb.fd.Length == NUM_FILE_DESCRIPTOR && at <= |file| && NulFree([])
  {
  }

  lemma NulFreeConcat(s: seq<byte>, file: seq<byte>, from: nat, to: nat)
    requires NulFree(s) && NulFree(file) && from <= to <= |file|
    ensures NulFree(s + file[from..to])
  {
  }

  /** The read at the top of the outer loop, into the window behind what was carried over. */
  method Fill(pcb: Pcb, fd: int, data: array<byte>, last: nat, ghost file: seq<byte>, ghost at: nat) returns (cnt: int)
    requires Reading(pcb.img, pcb.Abs(), fd, file, at) && last < BUFSIZE && data.Length == BUFSIZE + 1
    requires NulFree(file) && NulFree(data[..last])
    modifies pcb, pcb.fd, data
    ensures 0 <= cnt <= BUFSIZE - last && cnt <= |file| - at
    ensures cnt == 0 || last + cnt < BUFSIZE ==> at + cnt == |file|
    ensures Reading(pcb.img, pcb.Abs(), fd, file, at + cnt)
    ensures forall i :: 0 <= i <= 7 && i != fd ==> pcb.fd[i] == old(pcb.fd[i])
    ensures data[..last + cnt] + file[at + cnt..] == old(data[..last]) + file[at..]
    ensures data[BUFSIZE] == old(data[BUFSIZE]) && NulFree(data[..last + cnt])
  {
    hide Reading, NulFree;
    ReadingFacts(pcb, fd, file, at);
    ghost var carried := data[..last];
    cnt := ReadOn(pcb, fd, data, last, BUFSIZE - last, file, at);
    assert data[..last + cnt] == carried + file[at..at + cnt];
    assert file[at..] == file[at..at + cnt] + file[at + cnt..];
    NulFreeConcat(carried, file, at, at + cnt);
  }

  /** The outer loop of `do_one_file`, on an open file. */
  method SearchFile(pcb: Pcb, fd: int, s: seq<byte>, data: array<byte>, ghost file: seq<byte>)
    returns (reports: seq<seq<byte>>)
    requires Reading(pcb.img, pcb.Abs(), fd, file, 0) && NulFree(s) && NulFree(file)
    requires data.Length == BUFSIZE + 1
    modifies pcb, pcb.fd, data
    ensures Reading(pcb.img, pcb.Abs(), fd, file, |file|)
    ensures forall i :: 0 <= i <= 7 && i != fd ==> pcb.fd[i] == old(pcb.fd[i])
    ensures reports == Outcome(old(data[BUFSIZE]) == NEWLINE, file, s)
  {
    hide Reading, Found, NulFree, Outcome;
    ghost var all := Outcome(data[BUFSIZE] == NEWLINE, file, s);
    ReadingFacts(pcb, fd, file, 0);
    ghost var at := 0;
    reports := [];
    assert data[..0] + file[at..] == file;
    var last: nat := 0;
    while true
      invariant 0 <= at <= |file| && Reading(pcb.img, pcb.Abs(), fd, file, at)
      invariant forall i :: 0 <= i <= 7 && i != fd ==> pcb.fd[i] == old(pcb.fd[i])
      invariant last < BUFSIZE && NulFree(data[..last])
      invariant reports + Outcome(data[BUFSIZE] == NEWLINE, data[..last] + file[at..], s) == all
      decreases |file| - at, last
    {
      var cnt := Fill(pcb, fd, data, last, file, at);
      if -1 == cnt {
        assert false;
      }
      last := last + cnt;
      at := at + cnt;
      var left, reported := Pass(data, last, cnt, s, file[at..]);
      reports := reports + reported;
      last := left;
      if cnt == 0 {
        break;
      }
    }
    assert data[..0] + file[at..] == [];
    NothingInIt(data[BUFSIZE] == NEWLINE, s);
  }

  lemma NothingInIt(newlineBehind: bool, s: seq<byte>)
    ensures Outcome(newlineBehind, [], s) == []
  {
    NothingFound(s);
  }

  /** `do_one_file`: what is found in the file, through whatever blocks and windows its lines happen to
      cross.  `data` is the uninitialised buffer on the stack. */
  method DoOneFile(pcb: Pcb, s: seq<byte>, fname: seq<byte>, data: array<byte>)
    returns (status: int, reports: seq<seq<byte>>)
    requires pcb.Valid() && FileName(fname) && NulFree(s) && data.Length == BUFSIZE + 1
    requires var entry := FindEntry(pcb.img, fname);
             entry != -1 ==>
               && EntryType(pcb.img, entry) == 2
               && NulFree(Contents(pcb.img, EntryInode(pcb.img, entry)))
    modifies pcb, pcb.fd, data
    ensures pcb.Valid()
    ensures status == (if OpenStep(pcb.img, old(pcb.Abs()), fname).1.value == -1 then -1 else 0)
    ensures reports == if status == -1 then [] else
              Outcome(old(data[1024]) == 10,
                      Contents(pcb.img, EntryInode(pcb.img, FindEntry(pcb.img, fname))), s)
    ensures forall i :: 2 <= i <= 7 ==> old(pcb.fd[i]).flags == pcb.fd[i].flags
  {
    hide Found, Outcome, Contents, Word, FindEntry, CString, ReadResult, OnFile;
    reports := [];
    OpenAnswer(pcb.img, pcb.Abs(), fname);
    var fd := pcb.Open(fname);
    if fd == -1 {
      return -1, reports;
    }
    reports := SearchFile(pcb, fd, s, data, FileOf(pcb.img, pcb.fd[fd]));
    var closed := pcb.Close(fd);
    if -1 == closed {
      assert false;
    }
    status := 0;
  }
}
