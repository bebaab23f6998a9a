/** C strings, and the lines of a text. */
module Text {
  import opened Bytes

  /** The C string at the start of `s`: everything before the first NUL. */
  function CString(s: seq<byte>): (c: seq<byte>)
    ensures c <= s && NUL !in c
    ensures |c| < |s| ==> s[|c|] == NUL
  {
    if s == [] || s[0] == NUL then [] else [s[0]] + CString(s[1..])
  }

  lemma {:induction false} CStringIs(s: seq<byte>, c: seq<byte>)
    requires c <= s && NUL !in c && (|c| < |s| ==> s[|c|] == NUL)
    ensures CString(s) == c
  {
    if c != [] {
      assert c[0] in c && forall b :: b in c[1..] ==> b in c;
      CStringIs(s[1..], c[1..]);
    } else {
      assert s == [] || s[0] == NUL;
    }
  }

  /** The lines of a file: the pieces between newlines. */
  function Lines(file: seq<byte>): (lines: seq<seq<byte>>)
    ensures |lines| > 0
    decreases |file|
  {
    var i := FirstNewline(file);
    if i == |file| then [file] else [file[..i]] + Lines(file[i + 1..])
  }

  function FirstNewline(s: seq<byte>): (i: nat)
    ensures i <= |s| && NEWLINE !in s[..i]
    ensures i < |s| ==> s[i] == NEWLINE
  {
    if s == [] || s[0] == NEWLINE then 0
    else
      assert s[..1 + FirstNewline(s[1..])] == [s[0]] + s[1..][..FirstNewline(s[1..])];
      1 + FirstNewline(s[1..])
  }

  function JoinLines(lines: seq<seq<byte>>): seq<byte>
    requires |lines| > 0
  {
    if |lines| == 1 then lines[0] else lines[0] + [NEWLINE] + JoinLines(lines[1..])
  }

  /** `Lines` is the way to cut the file at its newlines. */
  lemma {:induction false} LinesAreTheFile(file: seq<byte>)
    ensures JoinLines(Lines(file)) == file
    ensures forall line :: line in Lines(file) ==> NEWLINE !in line
    decreases |file|
  {
    var i := FirstNewline(file);
    if i < |file| {
      LinesAreTheFile(file[i + 1..]);
      assert Lines(file)[1..] == Lines(file[i + 1..]);
      assert file == file[..i] + [NEWLINE] + file[i + 1..];
    } else {
      assert file[..i] == file;
    }
  }

  /** Joining puts one byte 10 between one line and the next. */
  lemma JoiningIs(line: seq<byte>, lines: seq<seq<byte>>)
    ensures JoinLines([line]) == line
    ensures lines != [] ==> JoinLines([line] + lines) == line + [10] + JoinLines(lines)
  {
    assert ([line] + lines)[1..] == lines;
  }

  lemma NewlineAt(s: seq<byte>, i: nat)
    requires i <= |s| && NEWLINE !in s[..i] && (i < |s| ==> s[i] == NEWLINE)
    ensures FirstNewline(s) == i
  {
    var j := FirstNewline(s);
    assert forall k :: 0 <= k < i ==> s[k] == s[..i][k];
    assert forall k :: 0 <= k < j ==> s[k] == s[..j][k];
  }

  lemma LinesIs(s: seq<byte>)
    ensures var i := FirstNewline(s);
            Lines(s) == if i == |s| then [s] else [s[..i]] + Lines(s[i + 1..])
  {
    hide FirstNewline;
  }

  /** The first line, and the others. */
  lemma LinesUnfold(s: seq<byte>)
    ensures var i := FirstNewline(s);
            && Lines(s)[0] == s[..i]
            && (i == |s| ==> |Lines(s)| == 1)
            && (i < |s| ==> |Lines(s)| > 1 && Lines(s)[1..] == Lines(s[i + 1..]))
  {
    LinesIs(s);
    hide *;
    var i := FirstNewline(s);
    assert s[..|s|] == s;
    if i < |s| {
      var rest := Lines(s[i + 1..]);
      assert ([s[..i]] + rest)[1..] == rest;
    }
  }

  lemma LinesCons(line: seq<byte>, rest: seq<byte>)
    requires NEWLINE !in line
    ensures Lines(line + [NEWLINE] + rest) == [line] + Lines(rest)
  {
    var file := line + [NEWLINE] + rest;
    NewlineAt(file, |line|);
    assert file[..|line|] == line && file[|line| + 1..] == rest;
  }

  lemma LinesLast(line: seq<byte>)
    requires NEWLINE !in line
    ensures Lines(line) == [line]
  {
    NewlineAt(line, |line|);
  }

  /** There is no other way: pieces without newlines that join to a file are its lines. */
  lemma {:induction false} LinesUnique(pieces: seq<seq<byte>>)
    requires |pieces| > 0 && forall piece :: piece in pieces ==> NEWLINE !in piece
    ensures Lines(JoinLines(pieces)) == pieces
  {
    hide Lines;
    if |pieces| == 1 {
      LinesLast(pieces[0]);
    } else {
      LinesUnique(pieces[1..]);
      LinesCons(pieces[0], JoinLines(pieces[1..]));
    }
  }
}
