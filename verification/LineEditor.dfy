/**
 The terminal's line editor: scan codes go in, one line comes out.
 `KeyStep` says what a key does to the line; class `Editor` is the code that does it.
 */
module LineEditor {
  import opened Bytes

  const NUM_CHARS := 128
  const BACKSPACE: byte := 8

  const SHIFT_LEFT := 0x2A
  const SHIFT_RIGHT := 0x36
  const CTRL := 0x1D
  const ALT := 0x38
  const CAPS := 0x3A
  const LETTER_L := 0x26
  const ENTER := 0x1C
  const ERASE := 0x0E
  const RELEASED := 0x80
  const F1 := 0x3B

  /** `kbdus`; codes from 128 on are taken to be 0. */
  function Plain(scancode: byte): byte {
    match scancode as int
    case 1 => 27 case 2 => 49 case 3 => 50 case 4 => 51 case 5 => 52 case 6 => 53 case 7 => 54 case 8 => 55
    case 9 => 56 case 10 => 57 case 11 => 48 case 12 => 45 case 13 => 61 case 14 => 8 case 15 => 9 case 16 => 113
    case 17 => 119 case 18 => 101 case 19 => 114 case 20 => 116 case 21 => 121 case 22 => 117 case 23 => 105
    case 24 => 111
    case 25 => 112 case 26 => 91 case 27 => 93 case 28 => 10 case 30 => 97 case 31 => 115 case 32 => 100 case 33 => 102
    case 34 => 103 case 35 => 104 case 36 => 106 case 37 => 107 case 38 => 108 case 39 => 59 case 40 => 39 case 41 => 96
    case 43 => 92 case 44 => 122 case 45 => 120 case 46 => 99 case 47 => 118 case 48 => 98 case 49 => 110 case 50 => 109
    case 51 => 44 case 52 => 46 case 53 => 47 case 55 => 42 case 57 => 32 case 74 => 45 case 78 => 43
    case _ => 0
  }

  /** `kbdus_shift` */
  function Shifted(scancode: byte): byte {
    match scancode as int
    case 1 => 27 case 2 => 33 case 3 => 64 case 4 => 35 case 5 => 36 case 6 => 37 case 7 => 94 case 8 => 38
    case 9 => 42 case 10 => 40 case 11 => 41 case 12 => 95 case 13 => 43 case 15 => 9 case 16 => 81 case 17 => 87
    case 18 => 69 case 19 => 82 case 20 => 84 case 21 => 89 case 22 => 85 case 23 => 73 case 24 => 79 case 25 => 80
    case 26 => 123 case 27 => 125 case 30 => 65 case 31 => 83 case 32 => 68 case 33 => 70 case 34 => 71 case 35 => 72
    case 36 => 74 case 37 => 75 case 38 => 76 case 39 => 58 case 40 => 34 case 41 => 126 case 43 => 124 case 44 => 90
    case 45 => 88 case 46 => 67 case 47 => 86 case 48 => 66 case 49 => 78 case 50 => 77 case 51 => 60 case 52 => 62
    case 53 => 63 case 55 => 42 case 57 => 32 case 74 => 45 case 78 => 43
    case _ => 0
  }

  datatype Modifiers = Modifiers(shift: bool, ctrl: bool, alt: bool, capslock: bool)

  /** What the editor relies on in the two tables. */
  lemma TableFacts(scancode: byte)
    ensures Plain(scancode) == NEWLINE <==> scancode as int == ENTER
    ensures Plain(scancode) == BACKSPACE <==> scancode as int == ERASE
    ensures Shifted(scancode) != NEWLINE && Shifted(scancode) != BACKSPACE
    ensures scancode as int in {ENTER, ERASE} ==> Shifted(scancode) == NUL
    ensures scancode as int >= RELEASED || IsModifier(scancode) ==> Plain(scancode) == Shifted(scancode) == NUL
  {
  }

  // ----- What a key means -----

  datatype Action =
    | Append(b: byte)
    | EndLine            // Enter
    | LoseLast           // Enter with shift or control held: it ends no line, but takes a full line's last character
    | EraseLast
    | EraseAll
    | SwitchTo(term: nat)
    | Nothing

  function Release(code: int): int { code + RELEASED }

  predicate IsModifier(scancode: byte) {
    scancode as int in {SHIFT_LEFT, SHIFT_RIGHT, CTRL, CAPS, ALT, Release(SHIFT_LEFT), Release(SHIFT_RIGHT),
                        Release(CTRL), Release(CAPS), Release(ALT)}
  }

  predicate Letter(b: byte) { 97 <= b <= 122 }

  /** The character a key types: shift and caps lock undo each other on letters, and caps lock does
      nothing to the other keys. */
  function Typed(m: Modifiers, scancode: byte): byte {
    if (if Letter(Plain(scancode)) then m.shift != m.capslock else m.shift) then Shifted(scancode) else Plain(scancode)
  }

  function Meaning(m: Modifiers, scancode: byte): Action {
    if IsModifier(scancode) then Nothing
    else if m.alt && Release(F1) <= scancode as int <= Release(F1) + 2 then SwitchTo(scancode as int - Release(F1))
    else if scancode as int >= RELEASED then Nothing
    else if scancode as int == ENTER then if m.shift || m.ctrl then LoseLast else EndLine
    else if m.ctrl then if scancode as int == LETTER_L then EraseAll else Nothing
    else if scancode as int == ERASE then EraseLast
    else if Typed(m, scancode) == NUL then Nothing
    else Append(Typed(m, scancode))
  }

  function NextModifiers(m: Modifiers, scancode: byte): Modifiers {
    var code := scancode as int;
    if code == SHIFT_LEFT || code == SHIFT_RIGHT then m.(shift := true)
    else if code == Release(SHIFT_LEFT) || code == Release(SHIFT_RIGHT) then m.(shift := false)
    else if code == CTRL then m.(ctrl := true)
    else if code == Release(CTRL) then m.(ctrl := false)
    else if code == ALT then m.(alt := true)
    else if code == Release(ALT) then m.(alt := false)
    else if code == Release(CAPS) then m.(capslock := !m.capslock)
    else m
  }

  // ----- The keyboard, key by key -----

  /** The keys from scan code `first` on type these characters. */
  ghost predicate Row(table: byte -> byte, first: int, chars: string) {
    && 0 <= first && first + |chars| <= 128
    && forall i :: 0 <= i < |chars| ==> table((first + i) as byte) as int == chars[i] as int
  }

  lemma PlainUpper()
    ensures Row(Plain, 2, "1234567890-=") && Row(Plain, 16, "qwertyuiop[]")
  {
  }

  lemma PlainLower()
    ensures Row(Plain, 30, "asdfghjkl;'`") && Row(Plain, 43, "\\zxcvbnm,./")
  {
  }

  lemma PlainOthers()
    ensures Plain(1) == 27 && Plain(14) == 8 && Plain(15) == 9 && Plain(28) == 10
    ensures Plain(55) == 42 && Plain(57) == 32 && Plain(74) == 45 && Plain(78) == 43
    ensures forall c: byte :: c >= 79 || c in {0, 29, 42, 54, 56, 75, 76, 77} || 58 <= c <= 73 ==> Plain(c) == 0
  {
  }

  lemma ShiftedUpper()
    ensures Row(Shifted, 2, "!@#$%^&*()_+") && Row(Shifted, 16, "QWERTYUIOP{}")
  {
  }

  lemma ShiftedLower()
    ensures Row(Shifted, 30, "ASDFGHJKL:\"~") && Row(Shifted, 43, "|ZXCVBNM<>?")
  {
  }

  lemma ShiftedOthers()
    ensures Shifted(1) == 27 && Shifted(14) == 0 && Shifted(15) == 9 && Shifted(28) == 0
    ensures Shifted(55) == 42 && Shifted(57) == 32 && Shifted(74) == 45 && Shifted(78) == 43
    ensures forall c: byte :: c >= 79 || c in {0, 29, 42, 54, 56, 75, 76, 77} || 58 <= c <= 73 ==> Shifted(c) == 0
  {
  }

  /** A letter is a capital exactly when one of shift and caps lock is on. */
  lemma LettersAre(m: Modifiers, scancode: byte)
    requires 97 <= Plain(scancode) <= 122 && !m.ctrl
    ensures Meaning(m, scancode) ==
            Append(if m.shift != m.capslock then Plain(scancode) - 32 else Plain(scancode))
  {
    LetterKeys(scancode);
    hide Plain, Shifted;
  }

  lemma LetterKeys(scancode: byte)
    requires 97 <= Plain(scancode) <= 122
    ensures Shifted(scancode) == Plain(scancode) - 32
    ensures scancode < 128 && scancode != 28 && scancode != 14 && !IsModifier(scancode)
  {
  }

  /** Any other key types what is on it, or with shift what is above; caps lock changes nothing. */
  lemma OthersAre(m: Modifiers, scancode: byte)
    requires !(97 <= Plain(scancode) <= 122) && !m.ctrl && scancode < 128
    requires scancode !in {14, 28, 29, 42, 54, 56, 58}
    ensures var b := if m.shift then Shifted(scancode) else Plain(scancode);
            Meaning(m, scancode) == if b == 0 then Nothing else Append(b)
  {
    hide Plain, Shifted;
  }

  /** The keys that do not type. */
  lemma CommandKeys(m: Modifiers)
    ensures m.alt ==>
              Meaning(m, 0xBB) == SwitchTo(0) && Meaning(m, 0xBC) == SwitchTo(1) && Meaning(m, 0xBD) == SwitchTo(2)
    ensures !m.alt ==> Meaning(m, 0xBB) == Meaning(m, 0xBC) == Meaning(m, 0xBD) == Nothing
    ensures m.ctrl ==> Meaning(m, 38) == EraseAll && Meaning(m, 14) == Nothing
    ensures !m.ctrl ==> Meaning(m, 14) == EraseLast
    ensures Meaning(m, 28) == if m.shift || m.ctrl then LoseLast else EndLine
    ensures forall c: byte :: c >= 128 && !(m.alt && 0xBB <= c <= 0xBD) ==> Meaning(m, c) == Nothing
    ensures forall c: byte :: m.ctrl && c < 128 && c != 28 && c != 38 ==> Meaning(m, c) == Nothing
  {
    hide Plain, Shifted;
  }

  /** Shift, control and alt are on while they are held down; caps lock changes when it is let go. */
  lemma ModifierKeys(m: Modifiers, scancode: byte)
    ensures var r := NextModifiers(m, scancode);
            && r.shift == (scancode == 0x2A || scancode == 0x36 || (m.shift && scancode != 0xAA && scancode != 0xB6))
            && r.ctrl == (scancode == 0x1D || (m.ctrl && scancode != 0x9D))
            && r.alt == (scancode == 0x38 || (m.alt && scancode != 0xB8))
            && (r.capslock != m.capslock <==> scancode == 0xBA)
  {
  }

  /** What each action does to a line. */
  lemma ActionsAre(line: Line, b: byte, term: nat)
    ensures |line| < 128 ==> Apply(line, Append(b)) == line + [b] && Apply(line, EndLine) == line + [10]
    ensures |line| == 128 ==> Apply(line, Append(b)) == line && Apply(line, EndLine) == line[..127] + [10]
    ensures Apply(line, LoseLast) == if |line| == 128 then line[..127] else line
    ensures Apply(line, EraseLast) == if line == [] then [] else line[..|line| - 1]
    ensures Apply(line, EraseAll) == [] && Apply(line, SwitchTo(term)) == Apply(line, Nothing) == line
  {
  }

  // ----- What the line becomes -----

  type Line = line: seq<byte> | |line| <= NUM_CHARS

  function Apply(line: Line, a: Action): Line {
    match a
    case Append(b) => if |line| < NUM_CHARS then line + [b] else line
    case EndLine => (if |line| < NUM_CHARS then line else line[..NUM_CHARS - 1]) + [NEWLINE]
    case LoseLast => if |line| < NUM_CHARS then line else line[..NUM_CHARS - 1]
    case EraseLast => if line == [] then line else line[..|line| - 1]
    case EraseAll => []
    case SwitchTo(_) => line
    case Nothing => line
  }

  datatype State = State(line: Line, m: Modifiers)

  function KeyStep(s: State, scancode: byte): State {
    State(Apply(s.line, Meaning(s.m, scancode)), NextModifiers(s.m, scancode))
  }

  function Keys(s: State, scancodes: seq<byte>): State {
    if scancodes == [] then s
    else KeyStep(Keys(s, scancodes[..|scancodes| - 1]), scancodes[|scancodes| - 1])
  }

  /** A key that ends no line leaves the line's text alone, unless the line is full and the key is Enter
      with shift or control held. */
  lemma EnterHeldBack(s: State, scancode: byte)
    requires scancode as int == ENTER && (s.m.shift || s.m.ctrl)
    ensures KeyStep(s, scancode).line == s.line <==> |s.line| < NUM_CHARS
  {
  }

  /** For example with control held on a line of 128 times "a". */
  lemma EnterTakesLast(m: Modifiers)
    requires m.ctrl
    ensures KeyStep(State(seq(NUM_CHARS, _ => 97), m), 28).line == seq(NUM_CHARS - 1, _ => 97)
  {
  }

  /** Erasing takes back what was typed exactly when there was room for it. */
  lemma EraseUndoes(line: Line, b: byte)
    ensures Apply(Apply(line, Append(b)), EraseLast) == line <==> |line| < NUM_CHARS
  {
    if |line| == NUM_CHARS {
      assert |Apply(line, EraseLast)| == NUM_CHARS - 1;
    }
  }

  // Typing a text on an empty line gives the text, up to 128 characters.

  /** Keys that each type a character. */
  ghost predicate Types(m: Modifiers, scancodes: seq<byte>, text: seq<byte>) {
    |scancodes| == |text| && forall i :: 0 <= i < |text| ==> Meaning(m, scancodes[i]) == Append(text[i])
  }

  lemma TypingOne(s: State, scancode: byte, b: byte)
    requires Meaning(s.m, scancode) == Append(b)
    ensures KeyStep(s, scancode) == State(Apply(s.line, Append(b)), s.m)
  {
    hide Plain, Shifted;
  }

  /** As much of a text as the line holds. */
  function Fitting(text: seq<byte>): Line {
    if |text| <= NUM_CHARS then text else text[..NUM_CHARS]
  }

  lemma FittingGrows(text: seq<byte>)
    requires text != []
    ensures Apply(Fitting(text[..|text| - 1]), Append(text[|text| - 1])) == Fitting(text)
  {
  }

  lemma NoKeys(s: State)
    ensures Keys(s, []) == s && Fitting([]) == []
  {
  }

  lemma TypesAt(m: Modifiers, scancodes: seq<byte>, text: seq<byte>, i: nat)
    requires Types(m, scancodes, text) && i < |text|
    ensures |scancodes| == |text| && Meaning(m, scancodes[i]) == Append(text[i])
  {
  }

  lemma KeysOneMore(s: State, scancodes: seq<byte>, scancode: byte)
    ensures Keys(s, scancodes + [scancode]) == KeyStep(Keys(s, scancodes), scancode)
  {
    hide KeyStep;
    assert (scancodes + [scancode])[..|scancodes|] == scancodes;
  }

  lemma {:induction false} TypingAccumulates(m: Modifiers, scancodes: seq<byte>, text: seq<byte>, n: nat)
    requires Types(m, scancodes, text) && n <= |text|
    ensures Keys(State([], m), scancodes[..n]) == State(Fitting(text[..n]), m)
    decreases n
  {
    hide Keys, KeyStep, Types, Meaning, Fitting;
    if n == 0 {
      NoKeys(State([], m));
      assert scancodes[..0] == [] && text[..0] == [];
    } else {
      TypesAt(m, scancodes, text, n - 1);
      TypingAccumulates(m, scancodes, text, n - 1);
      TypingMore(m, scancodes[..n - 1], text[..n - 1], scancodes[n - 1], text[n - 1]);
      assert scancodes[..n] == scancodes[..n - 1] + [scancodes[n - 1]];
      assert text[..n] == text[..n - 1] + [text[n - 1]];
    }
  }

  lemma TypingMore(m: Modifiers, scancodes: seq<byte>, text: seq<byte>, scancode: byte, b: byte)
    requires Keys(State([], m), scancodes) == State(Fitting(text), m) && Meaning(m, scancode) == Append(b)
    ensures Keys(State([], m), scancodes + [scancode]) == State(Fitting(text + [b]), m)
  {
    hide *;
    TypingOne(State(Fitting(text), m), scancode, b);
    KeysOneMore(State([], m), scancodes, scancode);
    assert (text + [b])[..|text|] == text;
    FittingGrows(text + [b]);
  }

  /** What is typed before Enter is what is read: up to 127 characters and the newline. */
  lemma TypedThenRead(m: Modifiers, scancodes: seq<byte>, text: seq<byte>, enter: byte)
    requires Types(m, scancodes, text) && enter as int == ENTER && !m.shift && !m.ctrl
    ensures Keys(State([], m), scancodes + [enter]).line
            == (if |text| < NUM_CHARS then text else text[..NUM_CHARS - 1]) + [NEWLINE]
  {
    hide Plain, Shifted, Typed, Keys;
    TypingAccumulates(m, scancodes, text, |text|);
    assert scancodes[..|text|] == scancodes && text[..|text|] == text;
    KeysOneMore(State([], m), scancodes, enter);
  }

  ghost predicate NewlineAt(line: Line, i: int) {
    0 <= i < |line| && line[i] == NEWLINE
  }

  /** Something stands behind a newline. */
  ghost predicate InnerNewline(line: Line) {
    exists i :: NewlineAt(line, i) && i < |line| - 1
  }

  /** Only Enter, without shift or control, puts a newline in the line, and it puts it last. */
  lemma NewlineByEnter(s: State, scancode: byte, i: int)
    requires NewlineAt(KeyStep(s, scancode).line, i)
    ensures NewlineAt(s.line, i)
            || (Meaning(s.m, scancode) == EndLine && scancode as int == ENTER && i == |KeyStep(s, scancode).line| - 1)
  {
    TableFacts(scancode);
    hide Plain, Shifted;
  }

  /** A newline is the line's last character until a key is pressed before the line is read: something
      comes to stand behind a newline exactly when the line has ended, is not full, and one more
      character is typed or Enter is pressed again. */
  lemma NewlineLeftBehind(s: State, scancode: byte)
    requires !InnerNewline(s.line)
    ensures InnerNewline(KeyStep(s, scancode).line) <==>
              && NewlineAt(s.line, |s.line| - 1) && |s.line| < NUM_CHARS
              && (Meaning(s.m, scancode).Append? || Meaning(s.m, scancode).EndLine?)
  {
    hide Meaning;
    var line := KeyStep(s, scancode).line;
    if NewlineAt(s.line, |s.line| - 1) && |s.line| < NUM_CHARS
      && (Meaning(s.m, scancode).Append? || Meaning(s.m, scancode).EndLine?) {
      assert NewlineAt(line, |s.line| - 1);
    }
    if i :| NewlineAt(line, i) && i < |line| - 1 {
      assert NewlineAt(s.line, i);
    }
  }

  /** For example "a", Enter, "b". */
  lemma TypedBehindEnter()
    ensures var s := Keys(State([], Modifiers(false, false, false, false)), [30, 28, 48]);
            s.line == [97, NEWLINE, 98] && InnerNewline(s.line)
  {
    var m := Modifiers(false, false, false, false);
    ThreeKeys(State([], m), 30, 28, 48);
    assert NewlineAt([97, NEWLINE, 98], 1);
  }

  lemma ThreeKeys(s: State, a: byte, b: byte, c: byte)
    ensures Keys(s, [a, b, c]) == KeyStep(KeyStep(KeyStep(s, a), b), c)
  {
    hide KeyStep;
    NoKeys(s);
    KeysOneMore(s, [], a);
    KeysOneMore(s, [a], b);
    KeysOneMore(s, [a, b], c);
    assert [] + [a] == [a] && [a] + [b] == [a, b] && [a, b] + [c] == [a, b, c];
  }

  // ----- The code -----

  class Editor {
    const lineBuffer: array<byte>
    var bufferI: nat
    var shift: bool
    var ctrl: bool
    var alt: bool
    var capslock: bool

    ghost predicate Valid()
      reads this
    {
      lineBuffer.Length == NUM_CHARS && bufferI <= NUM_CHARS
    }

    ghost function Abs(): State
      requires Valid()
      reads this, lineBuffer
    {
      State(lineBuffer[..bufferI], Modifiers(shift, ctrl, alt, capslock))
    }

    constructor ()
      ensures Valid() && Abs() == State([], Modifiers(false, false, false, false)) && fresh(lineBuffer)
    {
      lineBuffer := new byte[NUM_CHARS];
      bufferI := 0;
      shift, ctrl, alt, capslock := false, false, false, false;
    }

    /** `terminal_key_pressed`; the terminal to switch to, or -1. */
    method KeyPressed(scancode: byte) returns (switchTo: int)
      requires Valid()
      modifies this, lineBuffer
      ensures Valid() && Abs() == KeyStep(old(Abs()), scancode)
      ensures switchTo == match Meaning(old(Abs()).m, scancode) case SwitchTo(t) => t case _ => -1
    {
      TableFacts(scancode);
      hide Plain, Shifted;
      var code := scancode as int;
      switchTo := -1;
      var toPrint := Plain(scancode);
      if bufferI == NUM_CHARS && toPrint == NEWLINE {
        lineBuffer[bufferI - 1] := toPrint;
        bufferI := bufferI - 1;
      }
      if code == ALT {
        alt := true;
      }
      if code == Release(ALT) {
        alt := false;
      }
      if code == SHIFT_LEFT || code == SHIFT_RIGHT {
        shift := true;
      } else if code == Release(SHIFT_LEFT) || code == Release(SHIFT_RIGHT) {
        shift := false;
      } else if code == CTRL {
        ctrl := true;
      } else if code == Release(CTRL) {
        ctrl := false;
      } else if code == Release(CAPS) {
        capslock := !capslock;
      } else {
        if alt {
          if Release(F1) <= code <= Release(F1) + 2 {
            return code - Release(F1);
          }
        }
        if ctrl {
          if code == LETTER_L {
            bufferI := 0;
          }
        } else if code != CAPS {
          CharacterPressed(scancode, toPrint);
        }
      }
    }

    /** The part for keys that type, with neither control nor a modifier key involved. */
    method CharacterPressed(scancode: byte, plain: byte)
      requires Valid() && plain == Plain(scancode) && !ctrl
      requires plain == NEWLINE ==> bufferI < NUM_CHARS
      modifies this, lineBuffer
      ensures Valid() && Abs().m == old(Abs()).m
      ensures Abs().line ==
              if scancode as int >= RELEASED then old(Abs()).line
              else if scancode as int == ERASE then Apply(old(Abs()).line, EraseLast)
              else if Typed(old(Abs()).m, scancode) == NUL then old(Abs()).line
              else Apply(old(Abs()).line, Append(Typed(old(Abs()).m, scancode)))
    {
      TableFacts(scancode);
      hide Plain, Shifted;
      var code, toPrint := scancode as int, plain;
      if Letter(toPrint) {
        if capslock && shift {
          toPrint := Plain(scancode);
        } else if capslock || shift {
          toPrint := Shifted(scancode);
        }
      } else if toPrint == BACKSPACE && code == ERASE {
        toPrint := NUL;
        BackspacePressed();
      } else if shift {
        toPrint := Shifted(scancode);
      }
      if code < RELEASED && toPrint != NUL {
        if toPrint == BACKSPACE {
          toPrint := NUL;
          BackspacePressed();
        }
        if bufferI < NUM_CHARS {
          ghost var line := lineBuffer[..bufferI];
          lineBuffer[bufferI] := toPrint;
          bufferI := bufferI + 1;
          assert lineBuffer[..bufferI] == line + [toPrint];
        }
      }
    }

    method BackspacePressed()
      requires Valid()
      modifies `bufferI
      ensures Valid() && Abs().line == Apply(old(Abs()).line, EraseLast)
    {
      if bufferI > 0 {
        bufferI := bufferI - 1;
      }
    }

    /** `keyboard_read` */
    method KeyboardRead(buf: array<byte>) returns (r: nat)
      requires Valid() && buf != lineBuffer && bufferI < buf.Length
      modifies `bufferI, buf
      ensures Valid() && r == |old(Abs()).line| && buf[..r] == old(Abs()).line && buf[r] == NUL
      ensures Abs() == old(Abs()).(line := [])
      ensures forall j :: r < j < buf.Length ==> buf[j] == old(buf[j])
    {
      var i := 0;
      while i < bufferI
        invariant 0 <= i <= bufferI == old(bufferI) && lineBuffer[..] == old(lineBuffer[..])
        invariant buf[..i] == lineBuffer[..i]
        invariant forall j :: i <= j < buf.Length ==> buf[j] == old(buf[j])
      {
        buf[i] := lineBuffer[i];
        i := i + 1;
      }
      buf[i] := NUL;
      bufferI := 0;
      r := i;
    }
  }
}
