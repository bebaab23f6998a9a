/**
 Command lines in the emulator: `ece391_execute` cuts a command into words by writing NULs into a
 copy of it, and `ece391_getargs` joins the words of a program's argument vector again.
 */
module CommandLine {
  import opened Bytes
  import opened Basics

  const MAX_COMMAND := 1023
  const BUF_BYTES := 1026
  const MAX_ARGS := 1024
  const DOT: byte := 46
  const SLASH: byte := 47

  // ----- What the words are -----

  predicate Separator(b: byte) {
    b == SPACE || b == NEWLINE
  }

  function WordLength(t: seq<byte>): (n: nat)
    ensures n <= |t| && (forall i :: 0 <= i < n ==> !Separator(t[i])) && (n < |t| ==> Separator(t[n]))
  {
    if t == [] || Separator(t[0]) then 0 else 1 + WordLength(t[1..])
  }

  function SkipSpaces(t: seq<byte>): (r: seq<byte>)
    ensures |r| <= |t| && (r == [] || r[0] != SPACE)
    ensures t != [] && t[0] != SPACE ==> r == t
  {
    if t == [] || t[0] != SPACE then t else SkipSpaces(t[1..])
  }

  /** What follows a word and the separator that ends it. */
  function AfterWord(t: seq<byte>): seq<byte> {
    if WordLength(t) < |t| then t[WordLength(t) + 1..] else []
  }

  /** The words of an argument text: a newline ends the text where a word could start, and is a mere
      separator where it ends a word. */
  function Arguments(t: seq<byte>): (words: seq<seq<byte>>)
    ensures 2 * |words| <= |t| + 1
    decreases |t|
  {
    var s := SkipSpaces(t);
    if s == [] || s[0] == NEWLINE then [] else [s[..WordLength(s)]] + Arguments(AfterWord(s))
  }

  predicate Clean(w: seq<byte>) {
    w != [] && forall b :: b in w ==> !Separator(b)
  }

  lemma {:induction false} ArgumentsClean(t: seq<byte>)
    ensures forall w :: w in Arguments(t) ==> Clean(w)
    decreases |t|
  {
    var s := SkipSpaces(t);
    if s != [] && s[0] != NEWLINE {
      ArgumentsClean(AfterWord(s));
      assert Clean(s[..WordLength(s)]);
    }
  }

  /** All the words of a command: the first is what comes before any separator, even if it is empty. */
  function Words(command: seq<byte>): (words: seq<seq<byte>>)
    ensures |words| > 0 && 2 * |words| <= |command| + 3
  {
    [command[..WordLength(command)]] + Arguments(AfterWord(command))
  }

  function JoinWords(words: seq<seq<byte>>): seq<byte> {
    if words == [] then [] else if |words| == 1 then words[0] else words[0] + [SPACE] + JoinWords(words[1..])
  }

  lemma WordThen(w: seq<byte>, rest: seq<byte>)
    requires Clean(w) && (rest == [] || Separator(rest[0]))
    ensures WordLength(w + rest) == |w| && (w + rest)[..|w|] == w
    ensures AfterWord(w + rest) == if rest == [] then [] else rest[1..]
  {
    var n := WordLength(w + rest);
    assert forall i :: 0 <= i < |w| ==> (w + rest)[i] == w[i] && w[i] in w;
    assert rest != [] ==> (w + rest)[|w|] == rest[0];
  }

  lemma ArgumentsStep(w: seq<byte>, rest: seq<byte>)
    requires Clean(w) && (rest == [] || Separator(rest[0]))
    ensures Arguments(w + rest) == [w] + Arguments(if rest == [] then [] else rest[1..])
    ensures Words(w + rest) == [w] + Arguments(if rest == [] then [] else rest[1..])
  {
    WordThen(w, rest);
    assert w[0] in w && (w + rest)[0] == w[0];
  }

  /** What `JoinWords` puts after the first word. */
  function JoinRest(words: seq<seq<byte>>): (rest: seq<byte>)
    requires words != []
    ensures rest == [] || (rest[0] == SPACE && Separator(rest[0]) && rest[1..] == JoinWords(words[1..]))
    ensures rest == [] <==> |words| == 1
    ensures JoinWords(words) == words[0] + rest
  {
    if |words| == 1 then [] else [SPACE] + JoinWords(words[1..])
  }

  /** Cutting undoes joining. */
  lemma {:induction false} CutJoined(words: seq<seq<byte>>)
    requires forall w :: w in words ==> Clean(w)
    ensures Arguments(JoinWords(words)) == words
    ensures words != [] ==> Words(JoinWords(words)) == words
  {
    hide *;
    NothingToCut();
    if words == [] {
      NothingToJoin();
    } else {
      var first, others, rest := words[0], words[1..], JoinRest(words);
      assert words == [first] + others;
      CutJoined(others);
      ArgumentsStep(first, rest);
    }
  }

  lemma NothingToCut()
    ensures Arguments([]) == []
  {
  }

  /** Joining the arguments of any command and cutting them again gives the same arguments. */
  lemma ArgumentsSurvive(command: seq<byte>)
    requires |Words(command)| > 1
    ensures Words(JoinWords(Words(command)[1..])) == Words(command)[1..]
  {
    ArgumentsClean(AfterWord(command));
    assert Words(command)[1..] == Arguments(AfterWord(command));
    CutJoined(Words(command)[1..]);
  }

  /** A word has bytes other than 32 and 10, and at least one. */
  ghost predicate IsWord(w: seq<byte>) {
    w != [] && forall i :: 0 <= i < |w| ==> w[i] != 32 && w[i] != 10
  }

  /** How a text is cut, case by case: it may be empty, begin with a blank, begin with a newline, or begin with
      a word, behind which there is nothing, a blank or a newline. */
  lemma ArgumentsAre(w: seq<byte>, t: seq<byte>)
    ensures Arguments([]) == []
    ensures Arguments([32] + t) == Arguments(t)
    ensures Arguments([10] + t) == []
    ensures IsWord(w) ==> Arguments(w) == [w]
    ensures IsWord(w) ==> Arguments(w + [32] + t) == Arguments(w + [10] + t) == [w] + Arguments(t)
  {
    NothingToCut();
    FirstBytes(t);
    hide *;
    if IsWord(w) {
      WordIsClean(w);
      WordAndEnd(w);
      WordAndMore(w, 32, t);
      WordAndMore(w, 10, t);
    }
  }

  lemma WordAndEnd(w: seq<byte>)
    requires Clean(w)
    ensures Arguments(w) == Words(w) == [w]
  {
    ArgumentsStep(w, []);
    NothingToCut();
    hide *;
    assert w + [] == w;
  }

  lemma WordAndMore(w: seq<byte>, b: byte, t: seq<byte>)
    requires Clean(w) && (b == 32 || b == 10)
    ensures Arguments(w + [b] + t) == Words(w + [b] + t) == [w] + Arguments(t)
  {
    assert Separator(([b] + t)[0]);
    ArgumentsStep(w, [b] + t);
    hide *;
    assert w + [b] + t == w + ([b] + t) && ([b] + t)[1..] == t;
  }

  lemma WordIsClean(w: seq<byte>)
    requires IsWord(w)
    ensures Clean(w)
  {
    forall b | b in w ensures !Separator(b) {
      var i :| 0 <= i < |w| && w[i] == b;
    }
  }

  lemma FirstBytes(t: seq<byte>)
    ensures Arguments([32] + t) == Arguments(t) && Arguments([10] + t) == []
  {
    assert ([32] + t)[1..] == t;
  }

  /** The first word of a command is what comes before any blank or newline, and the others are cut from what
      is behind that. */
  lemma WordsAre(w: seq<byte>, t: seq<byte>)
    requires w == [] || IsWord(w)
    ensures Words(w) == [w] && Words(w + [32] + t) == Words(w + [10] + t) == [w] + Arguments(t)
  {
    NoFirstWord(32, t);
    NoFirstWord(10, t);
    hide *;
    if w == [] {
      assert w + [32] + t == [32] + t && w + [10] + t == [10] + t;
    } else {
      WordIsClean(w);
      WordAndEnd(w);
      WordAndMore(w, 32, t);
      WordAndMore(w, 10, t);
    }
  }

  lemma NoFirstWord(b: byte, t: seq<byte>)
    requires b == 32 || b == 10
    ensures Words([]) == [[]] && Words([b] + t) == [[]] + Arguments(t)
  {
    NothingToCut();
    assert ([b] + t)[1..] == t && WordLength([b] + t) == 0;
    hide Arguments;
  }

  /** Joining puts one byte 32 between one word and the next. */
  lemma JoiningIs(w: seq<byte>, words: seq<seq<byte>>)
    ensures JoinWords([]) == [] && JoinWords([w]) == w
    ensures words != [] ==> JoinWords([w] + words) == w + [32] + JoinWords(words)
  {
    assert ([w] + words)[1..] == words;
  }

  /** The maximal runs of characters other than blanks. */
  function Runs(t: seq<byte>): (runs: seq<seq<byte>>)
    decreases |t|
  {
    if t == [] then []
    else if t[0] == SPACE then Runs(t[1..])
    else [t[..RunLength(t)]] + Runs(t[RunLength(t)..])
  }

  function RunLength(t: seq<byte>): (n: nat)
    ensures n <= |t| && (t != [] && t[0] != SPACE ==> n > 0)
    ensures (forall i :: 0 <= i < n ==> t[i] != SPACE) && (n < |t| ==> t[n] == SPACE)
  {
    if t == [] || t[0] == SPACE then 0 else 1 + RunLength(t[1..])
  }

  lemma {:induction false} RunsNotEmpty(t: seq<byte>)
    ensures [] !in Runs(t)
    decreases |t|
  {
    if t != [] {
      RunsNotEmpty(if t[0] == SPACE then t[1..] else t[RunLength(t)..]);
    }
  }

  lemma RunsStep(t: seq<byte>)
    requires t != [] && t[0] != SPACE
    ensures Runs(t) == [t[..RunLength(t)]] + if RunLength(t) < |t| then Runs(t[RunLength(t) + 1..]) else []
  {
    var n := RunLength(t);
    if n < |t| {
      assert t[n..][0] == SPACE && t[n..][1..] == t[n + 1..];
    }
  }

  lemma SkipOne(t: seq<byte>)
    requires t != [] && t[0] == SPACE
    ensures Arguments(t) == Arguments(t[1..])
  {
  }

  lemma FirstRun(t: seq<byte>, tail: seq<byte>)
    requires NEWLINE !in t && (tail == [] || tail == [NEWLINE]) && t != [] && t[0] != SPACE
    ensures var n := RunLength(t);
            Arguments(t + tail) == Words(t + tail) == [t[..n]] + Arguments(if n < |t| then t[n + 1..] + tail else [])
  {
    hide Arguments, Words, RunLength;
    var n := RunLength(t);
    var w, rest := t[..n], t[n..] + tail;
    assert forall b :: b in w ==> b in t && b != SPACE;
    assert Clean(w);
    assert t + tail == w + rest;
    assert rest == [] || Separator(rest[0]);
    ArgumentsStep(w, rest);
    hide Clean, Separator;
    if n < |t| {
      assert rest[1..] == t[n + 1..] + tail;
    } else {
      assert rest == tail;
      assert tail != [] ==> tail[1..] == [];
    }
  }

  lemma {:induction false} ArgumentsAreRuns(t: seq<byte>, tail: seq<byte>)
    requires NEWLINE !in t && (tail == [] || tail == [NEWLINE])
    ensures Arguments(t + tail) == Runs(t)
    ensures t != [] && t[0] != SPACE ==> Words(t + tail) == Runs(t)
    decreases |t|
  {
    if t == [] {
      assert t + tail == tail;
    } else if t[0] == SPACE {
      SkipOne(t + tail);
      assert (t + tail)[1..] == t[1..] + tail;
      ArgumentsAreRuns(t[1..], tail);
    } else {
      hide Arguments, Words, Runs;
      FirstRun(t, tail);
      RunsStep(t);
      NothingToCut();
      var n := RunLength(t);
      if n < |t| {
        ArgumentsAreRuns(t[n + 1..], tail);
      }
    }
  }

  /** A command of one line denotes exactly its runs of characters, unless it is blank or starts with
      a blank: then, and only then, there is an empty first word. */
  lemma WordsAreRuns(t: seq<byte>, tail: seq<byte>)
    requires NEWLINE !in t && (tail == [] || tail == [NEWLINE])
    ensures Words(t + tail) == Runs(t) <==> t != [] && t[0] != SPACE
  {
    ArgumentsAreRuns(t, tail);
    if t == [] || t[0] == SPACE {
      assert WordLength(t + tail) == 0;
      assert Words(t + tail)[0] == [];
      RunsNotEmpty(t);
    }
  }

  /** For example a blank and "a". */
  lemma BlankFirst()
    ensures Words([SPACE, 97]) == [[], [97]] && Runs([SPACE, 97]) == [[97]]
  {
    assert AfterWord([SPACE, 97]) == [97];
    ArgumentsAreRuns([97], []);
    assert [97] + [] == [97] && RunLength([97]) == 1 && Runs([]) == [];
    assert Runs([97]) == [[97]];
    assert [SPACE, 97][1..] == [97];
  }

  // ----- Cutting, in place -----

  /** The C string at `at`. */
  ghost predicate StringAt(buf: seq<byte>, at: nat, w: seq<byte>) {
    at + |w| < |buf| && buf[at..at + |w|] == w && buf[at + |w|] == NUL
  }

  /** What an entry of `args` points to: the first word stands behind "./". */
  function Entry(words: seq<seq<byte>>, i: nat): seq<byte>
    requires i < |words|
  {
    if i == 0 then [DOT, SLASH] + words[0] else words[i]
  }

  /** The words cut so far, all below `limit`. */
  ghost predicate Cut(buf: seq<byte>, args: seq<int>, words: seq<seq<byte>>, limit: nat) {
    && 0 < |words| <= |args| && args[0] == 0
    && forall i :: 0 <= i < |words| ==>
         0 <= args[i] && args[i] + |Entry(words, i)| <= limit && StringAt(buf, args[i], Entry(words, i))
  }

  /** What that means for the arrays: the first word stands at byte 2 behind "./", and the others where `args`
      says; each ends with a byte 0. */
  lemma CutIs(buf: seq<byte>, args: seq<int>, words: seq<seq<byte>>, limit: nat)
    requires Cut(buf, args, words, limit)
    ensures var n := |words[0]|;
            && args[0] == 0 && 2 + n < |buf| && buf[0] == 46 && buf[1] == 47
            && buf[2..2 + n] == words[0] && buf[2 + n] == 0
    ensures forall i :: 1 <= i < |words| ==>
              var at, n := args[i], |words[i]|;
              0 <= at && at + n < |buf| && at + n <= limit && buf[at..at + n] == words[i] && buf[at + n] == 0
  {
    var first := Entry(words, 0);
    assert StringAt(buf, 0, first);
    assert buf[0..|first|] == first && first[0] == 46 && first[1] == 47;
    assert buf[0] == first[0] && buf[1] == buf[0..|first|][1];
    assert first[2..] == words[0];
    Subslice(buf, 0, |first|, 2, |first|);
    forall i | 1 <= i < |words| ensures StringAt(buf, args[i], words[i]) {
      assert Entry(words, i) == words[i];
    }
  }

  /** A NUL written behind the words leaves them. */
  lemma CutKept(buf: seq<byte>, args: seq<int>, words: seq<seq<byte>>, limit: nat, limit': nat, at: nat)
    requires Cut(buf, args, words, limit) && limit <= limit' && limit <= at < |buf|
    ensures Cut(buf[at := NUL], args, words, limit')
  {
    var buf' := buf[at := NUL];
    forall i | 0 <= i < |words| ensures StringAt(buf', args[i], Entry(words, i)) {
      assert StringAt(buf, args[i], Entry(words, i));
      assert buf'[args[i]..args[i] + |Entry(words, i)|] == buf[args[i]..args[i] + |Entry(words, i)|];
    }
  }

  lemma CutRaise(buf: seq<byte>, args: seq<int>, words: seq<seq<byte>>, limit: nat, limit': nat)
    requires Cut(buf, args, words, limit) && limit <= limit'
    ensures Cut(buf, args, words, limit')
  {
  }

  lemma CutMore(buf: seq<byte>, args: seq<int>, words: seq<seq<byte>>, at: nat, w: seq<byte>)
    requires Cut(buf, args, words, at) && |words| < |args| && StringAt(buf, at, w)
    ensures Cut(buf, args[|words| := at], words + [w], at + |w|)
  {
    var args', words' := args[|words| := at], words + [w];
    forall i | 0 <= i < |words'|
      ensures 0 <= args'[i] && args'[i] + |Entry(words', i)| <= at + |w| && StringAt(buf, args'[i], Entry(words', i))
    {
      assert i < |words| ==> Entry(words', i) == Entry(words, i) && StringAt(buf, args[i], Entry(words, i));
    }
  }

  /** The text not scanned yet. */
  ghost predicate Ahead(buf: array<byte>, scan: nat, end: nat, t: seq<byte>)
    reads buf
  {
    scan <= end < buf.Length && buf[end] == NUL && buf[scan..end] == t && NUL !in t
  }

  method ScanSpaces(buf: array<byte>, from: nat, ghost end: nat, ghost t: seq<byte>) returns (scan: nat)
    requires Ahead(buf, from, end, t)
    ensures from <= scan <= end < buf.Length && Ahead(buf, scan, end, SkipSpaces(t))
    ensures NUL == buf[scan] || NEWLINE == buf[scan] <==> SkipSpaces(t) == [] || SkipSpaces(t)[0] == NEWLINE
  {
    scan := from;
    ghost var rest := t;
    while SPACE == buf[scan]
      invariant from <= scan && Ahead(buf, scan, end, rest) && SkipSpaces(rest) == SkipSpaces(t)
      decreases end - scan
    {
      assert rest[0] == buf[scan];
      assert buf[scan + 1..end] == rest[1..];
      rest := rest[1..];
      scan := scan + 1;
    }
    assert rest != [] ==> rest[0] == buf[scan] && rest[0] in rest;
  }

  method ScanWord(buf: array<byte>, from: nat, ghost end: nat, ghost t: seq<byte>) returns (scan: nat)
    requires Ahead(buf, from, end, t)
    ensures scan == from + WordLength(t) <= end < buf.Length && Ahead(buf, scan, end, t[WordLength(t)..])
    ensures buf[scan] == if WordLength(t) < |t| then t[WordLength(t)] else NUL
  {
    scan := from;
    ghost var rest := t;
    while NUL != buf[scan] && SPACE != buf[scan] && NEWLINE != buf[scan]
      invariant from <= scan && Ahead(buf, scan, end, rest) && rest == t[scan - from..]
      invariant scan - from + WordLength(rest) == WordLength(t)
      decreases end - scan
    {
      assert rest[0] == buf[scan];
      assert buf[scan + 1..end] == rest[1..];
      rest := rest[1..];
      scan := scan + 1;
    }
    assert rest != [] ==> rest[0] == buf[scan] && rest[0] in rest;
  }

  /** A NUL written n bytes into a text ends the string there; behind it is the rest of the text. */
  lemma PutNul(buf: seq<byte>, from: nat, end: nat, t: seq<byte>, n: nat)
    requires from <= end < |buf| && buf[end] == NUL && buf[from..end] == t && n <= |t|
    ensures var ended := buf[from + n := NUL];
            && StringAt(ended, from, t[..n]) && ended[end] == NUL
            && (n < |t| ==> buf[from + n] == t[n] && ended[from + n + 1..end] == t[n + 1..])
            && (n == |t| ==> ended == buf)
  {
    var ended := buf[from + n := NUL];
    Slice(buf, from, end, n);
    assert ended[from..from + n] == buf[from..from + n];
    if n < |t| {
      Slice(buf, from, end, n + 1);
      assert ended[from + n + 1..end] == buf[from + n + 1..end];
    }
  }

  lemma NoNulBehind(t: seq<byte>, k: nat)
    requires NUL !in t && k <= |t|
    ensures NUL !in t[k..]
  {
    forall b | b in t[k..] ensures b in t {
      var i :| 0 <= i < |t| - k && t[k..][i] == b;
      assert t[k + i] == b;
    }
  }

  lemma AfterWordIs(t: seq<byte>)
    requires NUL !in t
    ensures AfterWord(t) == if WordLength(t) < |t| then t[WordLength(t) + 1..] else []
    ensures NUL !in AfterWord(t) && (WordLength(t) < |t| ==> t[WordLength(t)] != NUL)
  {
    hide WordLength;
    var n := WordLength(t);
    if n < |t| {
      NoNulBehind(t, n + 1);
      assert t[n] in t;
    }
  }

  lemma AheadIs(buf: array<byte>, scan: nat, end: nat, t: seq<byte>)
    ensures Ahead(buf, scan, end, t) <==>
              scan <= end < |buf[..]| && buf[..][end] == NUL && buf[..][scan..end] == t && NUL !in t
  {
  }

  /** Scan a word and end it with a NUL. */
  method EndWord(buf: array<byte>, from: nat, ghost end: nat, ghost t: seq<byte>) returns (scan: nat)
    requires Ahead(buf, from, end, t)
    modifies buf
    ensures from + WordLength(t) <= scan && Ahead(buf, scan, end, AfterWord(t))
    ensures from + WordLength(t) < buf.Length && buf[..] == old(buf[..])[from + WordLength(t) := NUL]
    ensures StringAt(buf[..], from, t[..WordLength(t)])
  {
    hide WordLength, AfterWord, StringAt, Ahead;
    ghost var b0, n := buf[..], WordLength(t);
    AheadIs(buf, from, end, t);
    PutNul(b0, from, end, t, n);
    AfterWordIs(t);
    scan := ScanWord(buf, from, end, t);
    if NUL != buf[scan] {
      buf[scan] := NUL;
      scan := scan + 1;
    } else {
      assert b0[from + n := NUL] == b0;
    }
    assert buf[..] == b0[from + n := NUL];
    AheadIs(buf, scan, end, AfterWord(t));
  }

  /** One argument: note where it starts and end it with a NUL. */
  method CutWord(buf: array<byte>, args: array<int>, nArg: nat, start: nat, ghost end: nat, ghost t: seq<byte>,
                 ghost words: seq<seq<byte>>)
    returns (scan: nat)
    requires Ahead(buf, start, end, t) && nArg == |words| < args.Length && Cut(buf[..], args[..], words, start)
    modifies buf, args
    ensures start <= scan && Ahead(buf, scan, end, AfterWord(t))
    ensures Cut(buf[..], args[..], words + [t[..WordLength(t)]], scan)
  {
    hide Cut, Entry;
    ghost var b0, a0, w, at := buf[..], args[..], t[..WordLength(t)], start + WordLength(t);
    args[nArg] := start;
    scan := EndWord(buf, start, end, t);
    assert args[..] == a0[nArg := start];
    CutKept(b0, a0, words, start, start, at);
    CutMore(buf[..], a0, words, start, w);
    CutRaise(buf[..], args[..], words + [w], at, scan);
  }

  /** The argument loop of the tokeniser. */
  method CutArguments(buf: array<byte>, args: array<int>, from: nat, ghost end: nat, ghost t: seq<byte>,
                      ghost first: seq<byte>)
    returns (nArg: nat)
    requires Ahead(buf, from, end, t) && args.Length == MAX_ARGS && |t| < 2 * MAX_ARGS - 8
    requires Cut(buf[..], args[..], [first], from)
    modifies buf, args
    ensures nArg == 1 + |Arguments(t)| < MAX_ARGS
    ensures Cut(buf[..], args[..], [first] + Arguments(t), end)
  {
    hide *;
    var scan := from;
    nArg := 1;
    ghost var rest, words := t, [first];
    ArgumentsUnfold(t);
    while true
      invariant Ahead(buf, scan, end, rest) && Cut(buf[..], args[..], words, scan)
      invariant words + Arguments(rest) == [first] + Arguments(t) && nArg == |words|
      decreases |rest|
    {
      ArgumentsUnfold(rest);
      ghost var was := scan;
      scan := ScanSpaces(buf, scan, end, rest);
      CutRaise(buf[..], args[..], words, was, scan);
      rest := SkipSpaces(rest);
      if NUL == buf[scan] || NEWLINE == buf[scan] {
        assert words == [first] + Arguments(t);
        EndArguments(buf, args, scan, end, words);
        return;
      }
      ghost var w := rest[..WordLength(rest)];
      scan := CutWord(buf, args, nArg, scan, end, rest, words);
      nArg := nArg + 1;
      words := words + [w];
      rest := AfterWord(rest);
    }
  }

  /** The end of the argument loop. */
  method EndArguments(buf: array<byte>, args: array<int>, scan: nat, ghost end: nat, ghost words: seq<seq<byte>>)
    requires scan <= end && scan < buf.Length && Cut(buf[..], args[..], words, scan)
    modifies buf
    ensures Cut(buf[..], args[..], words, end)
  {
    hide Cut;
    ghost var b0 := buf[..];
    CutKept(b0, args[..], words, scan, end, scan);
    buf[scan] := NUL;
    assert buf[..] == b0[scan := NUL];
  }

  lemma ArgumentsUnfold(t: seq<byte>)
    ensures var s := SkipSpaces(t);
            && (s != [] && s[0] != NEWLINE ==> |AfterWord(s)| < |t|)
            && Arguments(t) == if s == [] || s[0] == NEWLINE then [] else [s[..WordLength(s)]] + Arguments(AfterWord(s))
    ensures 2 * |Arguments(t)| <= |t| + 1
  {
  }

  /** `ece391_strcpy` to the bytes of `buf` from `at` on. */
  method CopyString(buf: array<byte>, at: nat, s: seq<byte>)
    requires at + |s| < buf.Length
    modifies buf
    ensures buf[..at + |s|] == old(buf[..at]) + s && buf[at + |s|] == NUL
    ensures forall j :: at + |s| < j < buf.Length ==> buf[j] == old(buf[j])
  {
    for i := 0 to |s|
      invariant forall j :: at <= j < at + i ==> buf[j] == s[j - at]
      invariant forall j :: 0 <= j < buf.Length && !(at <= j < at + i) ==> buf[j] == old(buf[j])
    {
      buf[at + i] := s[i];
    }
    buf[at + |s|] := NUL;
  }

  /** The first word, which is the program's name behind "./". */
  method CutFirst(buf: array<byte>, args: array<int>, command: seq<byte>) returns (scan: nat)
    requires NUL !in command && |command| + 2 < buf.Length && args.Length > 0
    requires buf[..2] == [DOT, SLASH] && Ahead(buf, 2, |command| + 2, command)
    modifies buf, args
    ensures Ahead(buf, scan, |command| + 2, AfterWord(command))
    ensures Cut(buf[..], args[..], [command[..WordLength(command)]], scan)
  {
    ghost var b0, first, at := buf[..], command[..WordLength(command)], 2 + WordLength(command);
    scan := EndWord(buf, 2, |command| + 2, command);
    args[0] := 0;
    assert buf[..][..2] == b0[..2] == [DOT, SLASH] && buf[..][2..at] == first;
    assert buf[..][..at] == buf[..][..2] + buf[..][2..at];
    assert StringAt(buf[..], 0, Entry([first], 0));
  }

  /** The tokeniser of `ece391_execute`, from the length check to `args[n_arg] = NULL`. */
  method Tokenise(command: seq<byte>, buf: array<byte>, args: array<int>) returns (ok: bool, nArg: nat)
    requires NUL !in command && buf.Length == BUF_BYTES && args.Length == MAX_ARGS
    modifies buf, args
    ensures ok <==> |command| <= 1023
    ensures ok ==>
              && nArg == |Words(command)| < MAX_ARGS && args[nArg] == -1
              && Cut(buf[..], args[..], Words(command), |command| + 2)
  {
    hide Arguments, Cut, Entry, AfterWord, WordLength, Ahead;
    nArg := 0;
    if MAX_COMMAND < |command| {
      return false, nArg;
    }
    ok := true;
    PutCommand(buf, command);
    var scan := CutFirst(buf, args, command);
    AfterIsShorter(command);
    nArg := CutArguments(buf, args, scan, |command| + 2, AfterWord(command), command[..WordLength(command)]);
    CutFrame(buf[..], args[..], Words(command), |command| + 2, nArg);
    ghost var a0 := args[..];
    args[nArg] := -1;
    assert args[..] == a0[nArg := -1];
  }

  /** The copy that is cut: "./" and the command. */
  method PutCommand(buf: array<byte>, command: seq<byte>)
    requires NUL !in command && |command| + 2 < buf.Length
    modifies buf
    ensures buf[..2] == [DOT, SLASH] && Ahead(buf, 2, |command| + 2, command)
  {
    buf[0] := DOT;
    buf[1] := SLASH;
    CopyString(buf, 2, command);
    assert buf[..2] == buf[..|command| + 2][..2] && buf[2..|command| + 2] == buf[..|command| + 2][2..];
  }

  lemma AfterIsShorter(t: seq<byte>)
    ensures |AfterWord(t)| <= |t|
  {
  }

  lemma CutFrame(buf: seq<byte>, args: seq<int>, words: seq<seq<byte>>, limit: nat, i: nat)
    requires Cut(buf, args, words, limit) && |words| <= i < |args|
    ensures Cut(buf, args[i := -1], words, limit)
  {
  }

  // ----- Joining -----

  /** Some number of words, joined, take exactly n bytes. */
  ghost predicate Fills(words: seq<seq<byte>>, n: int) {
    exists k :: 1 <= k <= |words| && |JoinWords(words[..k])| == n
  }

  /** Joining one word more. */
  lemma {:induction false} JoinMore(words: seq<seq<byte>>, w: seq<byte>)
    ensures JoinWords(words + [w]) == if words == [] then w else JoinWords(words) + [SPACE] + w
  {
    if words != [] {
      assert (words + [w])[1..] == words[1..] + [w];
      JoinMore(words[1..], w);
      assert |words| == 1 ==> words[1..] == [] && words == [words[0]];
    }
  }

  lemma {:induction false} JoinGrows(words: seq<seq<byte>>, j: nat, k: nat)
    requires 1 <= j < k <= |words|
    ensures |JoinWords(words[..j])| < |JoinWords(words[..k])|
    decreases k
  {
    if j < k - 1 {
      JoinGrows(words, j, k - 1);
    }
    JoinMore(words[..k - 1], words[k - 1]);
    assert words[..k] == words[..k - 1] + [words[k - 1]];
  }

  /** Where k words take less than n bytes and one more does not, it decides whether n are filled. */
  lemma FillsHere(words: seq<seq<byte>>, k: nat, n: int)
    requires k < |words| && (k > 0 ==> |JoinWords(words[..k])| < n) && |JoinWords(words[..k + 1])| >= n
    ensures Fills(words, n) <==> |JoinWords(words[..k + 1])| == n
  {
    if j :| 1 <= j <= |words| && |JoinWords(words[..j])| == n {
      if j < k { JoinGrows(words, j, k); }
      if j > k + 1 { JoinGrows(words, k + 1, j); }
    }
  }

  lemma NeverFills(words: seq<seq<byte>>, n: int)
    requires words != [] ==> |JoinWords(words)| < n
    ensures !Fills(words, n)
  {
    assert words[..|words|] == words;
    if j :| 1 <= j <= |words| && |JoinWords(words[..j])| == n {
      if j < |words| { JoinGrows(words, j, |words|); }
    }
  }

  /** The call that overruns its buffer fails. */
  lemma FillsIsFailure(words: seq<seq<byte>>, n: int)
    requires Fills(words, n)
    ensures |JoinWords(words)| >= n
  {
    assert words[..|words|] == words;
    var k :| 1 <= k <= |words| && |JoinWords(words[..k])| == n;
    if k < |words| { JoinGrows(words, k, |words|); }
  }

  /** One argument that is as long as the buffer overruns it; a longer one does not. */
  lemma OneArgument(w: seq<byte>, n: int)
    ensures Fills([w], n) <==> |w| == n
    ensures Fills([[66, 66, 66]], 3) && !Fills([[66, 66, 66, 66]], 3)
  {
    forall v: seq<byte>, m: int ensures Fills([v], m) <==> |v| == m {
      assert [v][..1] == [v];
      assert |JoinWords([v][..1])| == |v|;
    }
  }

  /** One word and, unless it is the last, the blank behind it; no room for them fails. */
  method AppendWord(buf: array<byte>, at: nat, left: int, w: seq<byte>, last: bool) returns (ok: bool)
    requires at + left < buf.Length && at < buf.Length
    modifies buf
    ensures ok <==> |w| <= left && (last || |w| < left)
    ensures ok ==> buf[..at + |w|] == old(buf[..at]) + w
    ensures ok && !last ==> buf[..at + |w| + 1] == old(buf[..at]) + w + [SPACE]
    ensures forall j :: 0 <= j < buf.Length && j > at + left ==> buf[j] == old(buf[j])
    ensures 0 <= at + left ==> buf[at + left] == if |w| == left then NUL else old(buf[at + left])
  {
    if |w| > left {
      return false;
    }
    CopyString(buf, at, w);
    if !last {
      if left - |w| < 1 {
        return false;
      }
      ghost var done := buf[..at + |w|];
      buf[at + |w|] := SPACE;
      assert buf[..at + |w|] == done;
    }
    ok := true;
  }

  /** How far the joining is after c words, none of them the last. */
  ghost predicate Joined(words: seq<seq<byte>>, c: nat, done: seq<byte>) {
    c <= |words| && done == if c == 0 then [] else JoinWords(words[..c]) + [SPACE]
  }

  lemma JoinedMore(words: seq<seq<byte>>, c: nat, done: seq<byte>)
    requires Joined(words, c, done) && c < |words|
    ensures JoinWords(words[..c + 1]) == done + words[c]
    ensures Joined(words, c + 1, done + words[c] + [SPACE])
    ensures c > 0 ==> |JoinWords(words[..c])| == |done| - 1
    ensures c + 1 == |words| ==> JoinWords(words) == done + words[c]
  {
    JoinMore(words[..c], words[c]);
    assert words[..c + 1] == words[..c] + [words[c]];
    assert c + 1 == |words| ==> words[..c + 1] == words;
  }

  lemma JoinedLess(words: seq<seq<byte>>, c: nat)
    requires c < |words|
    ensures |JoinWords(words[..c + 1])| <= |JoinWords(words)|
  {
    assert words[..|words|] == words;
    if c + 1 < |words| { JoinGrows(words, c + 1, |words|); }
  }

  /** What the call may do to the buffer from `nbytes` on: only the byte at `nbytes`, and only when some of
      the words, joined, fill the buffer. */
  ghost predicate Tail(buf: seq<byte>, was: seq<byte>, words: seq<seq<byte>>, nbytes: int)
    requires nbytes < |buf| == |was|
  {
    && (forall j :: 0 <= j < |buf| && j > nbytes ==> buf[j] == was[j])
    && (0 <= nbytes ==> buf[nbytes] == if Fills(words, nbytes) then NUL else was[nbytes])
  }

  /** c words are joined in front, and nothing from `nbytes` on has been touched. */
  ghost predicate Progress(buf: seq<byte>, was: seq<byte>, words: seq<seq<byte>>, c: nat, at: nat, nbytes: int) {
    && nbytes < |buf| == |was| && at < |buf| && (at > 0 ==> at <= nbytes)
    && Joined(words, c, buf[..at])
    && forall j :: 0 <= j < |buf| && j >= nbytes ==> buf[j] == was[j]
  }

  /** The next word. */
  method JoinNext(buf: array<byte>, at: nat, left: int, w: seq<byte>, last: bool,
                  ghost was: seq<byte>, ghost words: seq<seq<byte>>, ghost c: nat, ghost nbytes: int)
    returns (ok: bool)
    requires Progress(buf[..], was, words, c, at, nbytes) && at + left == nbytes
    requires c < |words| && w == words[c] && (last <==> c + 1 == |words|)
    modifies buf
    ensures !ok ==> |JoinWords(words)| >= nbytes && Tail(buf[..], was, words, nbytes)
    ensures ok && !last ==> Progress(buf[..], was, words, c + 1, at + |w| + 1, nbytes)
    ensures ok && last ==>
              && at + |w| <= nbytes && buf[..at + |w|] == JoinWords(words)
              && Tail(buf[..], was, words, nbytes)
  {
    hide JoinWords, Fills;
    ghost var done := buf[..at];
    JoinedMore(words, c, done);
    JoinedLess(words, c);
    if |w| >= left {
      FillsHere(words, c, nbytes);
    } else if last {
      NeverFills(words, nbytes);
    }
    ok := AppendWord(buf, at, left, w, last);
  }

  /** `ece391_getargs`.  It succeeds exactly when the joined words fit with their terminator.  The copy of
      a word that fills the buffer puts its terminator behind the buffer's end before the call fails: that
      happens exactly when some of the words, joined, fill it.  Nothing further is touched. */
  method GetArgs(argv: seq<seq<byte>>, buf: array<byte>, nbytes: int) returns (r: int)
    requires nbytes < buf.Length && 0 < buf.Length
    modifies buf
    ensures r == if |JoinWords(Rest(argv))| < nbytes then 0 else -1
    ensures r == 0 ==>
              var n := |JoinWords(Rest(argv))|;
              n < buf.Length && buf[..n] == JoinWords(Rest(argv)) && buf[n] == 0
    ensures forall j :: 0 <= j < buf.Length && j > nbytes ==> buf[j] == old(buf[j])
    ensures 0 <= nbytes ==> buf[nbytes] == if Fills(Rest(argv), nbytes) then NUL else old(buf[nbytes])
  {
    var idx: nat, at: nat, left := 1, 0, nbytes;
    ghost var words, was := Rest(argv), buf[..];
    JoinNone(words, was, nbytes);
    hide JoinWords, Fills, Progress, StringAt;
    while idx < |argv|
      invariant 1 <= idx && (idx < |argv| || words == []) && at + left == nbytes
      invariant words == [] ==> at == 0 && buf[..] == was
      invariant Progress(buf[..], was, words, idx - 1, at, nbytes)
    {
      var len, last := |argv[idx]|, idx + 1 >= |argv|;
      var ok := JoinNext(buf, at, left, argv[idx], last, was, words, idx - 1, nbytes);
      if !ok {
        return -1;
      }
      at, left := at + len, left - len;
      idx := idx + 1;
      if last {
        break;
      }
      at, left := at + 1, left - 1;
    }
    assert buf[..at] == JoinWords(words) && Tail(buf[..], was, words, nbytes);
    if left < 1 {
      return -1;
    }
    PutEnd(buf, at, JoinWords(words));
    r := 0;
  }

  lemma JoinNone(words: seq<seq<byte>>, was: seq<byte>, nbytes: int)
    requires nbytes < |was| && 0 < |was|
    ensures Progress(was, was, words, 0, 0, nbytes)
    ensures words == [] ==> JoinWords(words) == [] == was[..0] && Tail(was, was, words, nbytes)
  {
    if words == [] { NeverFills(words, nbytes); }
  }

  method PutEnd(buf: array<byte>, at: nat, ghost done: seq<byte>)
    requires at < buf.Length && buf[..at] == done
    modifies buf
    ensures StringAt(buf[..], 0, done)
    ensures forall j :: 0 <= j < buf.Length && j != at ==> buf[j] == old(buf[j])
  {
    buf[at] := NUL;
    assert buf[..][0..at] == done;
  }

  lemma NothingToJoin()
    ensures JoinWords([]) == []
  {
  }

  /** The arguments are what is behind the program's name. */
  function Rest(argv: seq<seq<byte>>): (args: seq<seq<byte>>)
    ensures |argv| <= 1 ==> args == []
    ensures |argv| > 1 ==> args == argv[1..]
  {
    if argv == [] then [] else argv[1..]
  }
}
