/** Routines of the kernel's library: numerals written in place, and moves between overlapping ranges. */
module Lib {
  import opened Bytes
  import opened Basics

  const DIGIT_0: byte := 48
  const LETTER_A: byte := 65

  // ----- Numerals -----

  /** `lookup` */
  function DigitChar(d: nat): byte
    requires d < 36
  {
    if d < 10 then (DIGIT_0 as int + d) as byte else (LETTER_A as int + d - 10) as byte
  }

  /** What a digit denotes; 36 for a character that is none. */
  function DigitValue(c: byte): (d: nat)
    ensures d <= 36
  {
    if 48 <= c <= 57 then c as nat - 48 else if 65 <= c <= 90 then c as nat - 55 else 36
  }

  /** The number a string denotes. */
  function Value(s: seq<byte>, radix: nat): nat {
    if s == [] then 0 else Value(s[..|s| - 1], radix) * radix + DigitValue(s[|s| - 1])
  }

  /** Digits of this radix, without a leading zero unless it is the only one. */
  ghost predicate Numeral(s: seq<byte>, radix: nat) {
    && s != []
    && (forall i :: 0 <= i < |s| ==> DigitValue(s[i]) < radix)
    && (s[0] == DIGIT_0 ==> |s| == 1)
  }

  /** The digits are those of `lookup`, in order. */
  lemma DigitsAre(d: nat)
    requires d < 36
    ensures DigitChar(d) as int == "0123456789ABCDEFGHIJKLMNOPQRSTUVWXYZ"[d] as int
    ensures DigitValue(DigitChar(d)) == d
  {
  }

  /** Each further digit multiplies the value by the radix and adds its own. */
  lemma ValueIs(s: seq<byte>, d: nat, radix: nat)
    requires d < 36
    ensures Value([], radix) == 0 && Value(s + [DigitChar(d)], radix) == Value(s, radix) * radix + d
  {
    assert (s + [DigitChar(d)])[..|s|] == s;
  }

  predicate Radix(radix: nat) { 2 <= radix <= 36 }

  /** The digits of a number, most significant first. */
  function Digits(value: nat, radix: nat): (s: seq<byte>)
    requires Radix(radix)
    ensures s != []
  {
    Quotient(value, radix);
    if value < radix then [DigitChar(value)] else Digits(value / radix, radix) + [DigitChar(value % radix)]
  }

  lemma Quotient(value: nat, radix: nat)
    requires Radix(radix)
    ensures value == value / radix * radix + value % radix && value % radix < radix
    ensures value / radix <= value / 2 && (value < radix <==> value / radix == 0)
  {
    var q := value / radix;
    assert value == q * radix + value % radix;
    Multiple(q, radix);
    AtLeastTwice(q, radix);
  }

  lemma AtLeastTwice(q: nat, radix: nat)
    requires radix >= 2
    ensures q * radix >= q * 2
  {
  }

  lemma {:induction false} DigitsDenote(value: nat, radix: nat)
    requires Radix(radix)
    ensures Value(Digits(value, radix), radix) == value
    ensures Numeral(Digits(value, radix), radix)
    ensures Digits(value, radix)[0] == DIGIT_0 <==> value == 0
    decreases value
  {
    Quotient(value, radix);
    if value < radix {
      assert Value([], radix) == 0;
      assert [DigitChar(value)][..0] == [];
    } else {
      DigitsDenote(value / radix, radix);
      var s := Digits(value / radix, radix);
      assert Digits(value, radix)[..|s|] == s;
    }
  }

  /** For example 255 in hexadecimal is "FF", and 6 in binary is "110". */
  lemma TwoNumerals()
    ensures Digits(255, 16) == [70, 70] && Digits(6, 2) == [49, 49, 48]
  {
    assert Digits(15, 16) == [70] && Digits(1, 2) == [49] && Digits(3, 2) == [49, 49];
  }

  /** There is only one numeral for a number. */
  lemma {:induction false} NumeralUnique(s: seq<byte>, radix: nat)
    requires Radix(radix) && Numeral(s, radix)
    ensures Digits(Value(s, radix), radix) == s
    decreases |s|
  {
    var n := |s| - 1;
    var low, high := DigitValue(s[n]), Value(s[..n], radix);
    assert DigitChar(low) == s[n];
    if n == 0 {
      assert s[..0] == [];
    } else {
      assert s[..n][0] == s[0];
      NumeralUnique(s[..n], radix);
      DigitsDenote(high, radix);
      assert high > 0;
      SplitLast(high, low, radix);
    }
  }

  lemma SplitLast(high: nat, low: nat, radix: nat)
    requires Radix(radix) && low < radix && high > 0
    ensures (high * radix + low) / radix == high && (high * radix + low) % radix == low && high * radix + low >= radix
  {
    var x := high * radix + low;
    Quotient(x, radix);
    var k := x / radix - high;
    assert k * radix == x / radix * radix - high * radix;
    Multiple(k, radix);
    Multiple(high, radix);
  }

  function Pow2(k: nat): nat {
    if k == 0 then 1 else 2 * Pow2(k - 1)
  }

  lemma Pow32()
    ensures Pow2(32) == U32
  {
    assert Pow2(8) == 0x100;
    assert Pow2(16) == 0x1_0000;
    assert Pow2(24) == 0x100_0000;
  }

  lemma {:induction false} DigitsShort(value: nat, radix: nat, k: nat)
    requires Radix(radix) && 0 < k && value < Pow2(k)
    ensures |Digits(value, radix)| <= k
    decreases k
  {
    Quotient(value, radix);
    if value >= radix {
      if k > 1 {
        DigitsShort(value / radix, radix, k - 1);
      }
    }
  }

  function Reversed(s: seq<byte>): (r: seq<byte>)
    ensures |r| == |s| && forall i :: 0 <= i < |s| ==> r[i] == s[|s| - 1 - i]
  {
    if s == [] then [] else Reversed(s[1..]) + [s[0]]
  }

  method Strlen(buf: array<byte>, start: nat, ghost n: nat) returns (len: nat)
    requires start + n < buf.Length && buf[start + n] == NUL && forall j :: start <= j < start + n ==> buf[j] != NUL
    ensures len == n
  {
    len := 0;
    while buf[start + len] != NUL
      invariant len <= n
      decreases n - len
    {
      len := len + 1;
    }
  }

  /** The loop of `strrev`, on a string of n characters. */
  method SwapEnds(buf: array<byte>, start: nat, n: nat)
    requires start + n < buf.Length
    modifies buf
    ensures forall j :: start <= j < start + n ==> buf[j] == old(buf[2 * start + n - 1 - j])
    ensures forall j :: 0 <= j < buf.Length && !(start <= j < start + n) ==> buf[j] == old(buf[j])
  {
    ghost var was := buf[..];
    var beg: int := 0;
    var end: int := n as int - 1;
    while beg < end
      invariant 0 <= beg <= n && beg + end == n - 1
      invariant forall j :: start <= j < start + beg ==> buf[j] == was[2 * start + n - 1 - j]
      invariant forall j :: start + end < j < start + n ==> buf[j] == was[2 * start + n - 1 - j]
      invariant forall j :: start + beg <= j <= start + end ==> buf[j] == was[j]
      invariant forall j :: 0 <= j < buf.Length && !(start <= j < start + n) ==> buf[j] == was[j]
    {
      var tmp := buf[start + end];
      buf[start + end] := buf[start + beg];
      buf[start + beg] := tmp;
      beg := beg + 1;
      end := end - 1;
    }
  }

  /** `strrev` of the string in `buf[start..start + n]`. */
  method Strrev(buf: array<byte>, start: nat, ghost n: nat)
    requires start + n < buf.Length && buf[start + n] == NUL && forall j :: start <= j < start + n ==> buf[j] != NUL
    modifies buf
    ensures buf[start..start + n] == Reversed(old(buf[start..start + n]))
    ensures forall j :: 0 <= j < buf.Length && !(start <= j < start + n) ==> buf[j] == old(buf[j])
  {
    hide *;
    ghost var was := buf[..];
    var len := Strlen(buf, start, n);
    SwapEnds(buf, start, len);
    ghost var text, r := was[start..start + n], buf[start..start + n];
    forall i | 0 <= i < n ensures r[i] == text[n - 1 - i] {
      assert r[i] == buf[start + i] && text[n - 1 - i] == was[start + n - 1 - i];
    }
    ReversedIs(text, r);
  }

  lemma ReversedIs(s: seq<byte>, r: seq<byte>)
    requires |r| == |s| && forall i :: 0 <= i < |s| ==> r[i] == s[|s| - 1 - i]
    ensures r == Reversed(s)
  {
  }

  lemma ReversedTwice(s: seq<byte>)
    ensures Reversed(Reversed(s)) == s
  {
    forall i | 0 <= i < |s| ensures Reversed(Reversed(s))[i] == s[i] {
      assert Reversed(Reversed(s))[i] == Reversed(s)[|s| - 1 - i];
    }
  }

  lemma OneDigit(value: nat, radix: nat)
    requires Radix(radix)
    ensures var s := Digits(value, radix);
            && s[|s| - 1] == DigitChar(value % radix)
            && (value < radix ==> |s| == 1)
            && (value >= radix ==> Digits(value / radix, radix) == s[..|s| - 1])
  {
    Quotient(value, radix);
  }

  lemma NoNuls(value: nat, radix: nat)
    requires Radix(radix)
    ensures forall i :: 0 <= i < |Digits(value, radix)| ==> Digits(value, radix)[i] != NUL
  {
    DigitsDenote(value, radix);
  }

  /** The loop of `itoa`: the digits, least significant first. */
  method WriteDigits(value: nat, buf: array<byte>, start: nat, radix: nat) returns (n: nat)
    requires 0 < value && Radix(radix) && start + |Digits(value, radix)| <= buf.Length
    modifies buf
    ensures n == |Digits(value, radix)| && buf[start..start + n] == Reversed(Digits(value, radix))
    ensures forall j :: 0 <= j < buf.Length && !(start <= j < start + n) ==> buf[j] == old(buf[j])
  {
    hide Digits;
    ghost var s := Digits(value, radix);
    assert s[..|s|] == s;
    var newval := value;
    n := 0;
    while newval > 0
      invariant n <= |s| && (if newval > 0 then Digits(newval, radix) == s[..|s| - n] else n == |s|)
      invariant forall j :: start <= j < start + n ==> buf[j] == s[|s| - 1 - (j - start)]
      invariant forall j :: 0 <= j < buf.Length && !(start <= j < start + n) ==> buf[j] == old(buf[j])
      decreases newval
    {
      Quotient(newval, radix);
      OneDigit(newval, radix);
      buf[start + n] := DigitChar(newval % radix);
      assert s[..|s| - n][..|s| - n - 1] == s[..|s| - (n + 1)];
      newval := newval / radix;
      n := n + 1;
    }
    ghost var r := buf[start..start + n];
    forall i | 0 <= i < n ensures r[i] == s[n - 1 - i] {
      assert r[i] == buf[start + i];
    }
    ReversedIs(s, r);
  }

  lemma WordDigits(value: nat, radix: nat)
    requires value < U32 && Radix(radix)
    ensures var s := Digits(value, radix);
            && |s| <= 32 && (value == 0 ==> s == [DIGIT_0])
            && forall i :: 0 <= i < |s| ==> s[i] != NUL
  {
    Pow32();
    DigitsShort(value, radix, 32);
    NoNuls(value, radix);
  }

  /** `itoa` into the bytes of `buf` from `start` on; at most 33 of them. */
  method Itoa(value: nat, buf: array<byte>, start: nat, radix: nat)
    requires value < U32 && Radix(radix) && start + 33 <= buf.Length
    modifies buf
    ensures var s := Digits(value, radix);
            |s| <= 32 && buf[start..start + |s|] == s && buf[start + |s|] == NUL
    ensures forall j :: 0 <= j < buf.Length && !(start <= j < start + 33) ==> buf[j] == old(buf[j])
  {
    hide *;
    WordDigits(value, radix);
    if value == 0 {
      buf[start] := DIGIT_0;
      buf[start + 1] := NUL;
      assert buf[start..start + 1] == [DIGIT_0];
      return;
    }
    var n := WriteDigits(value, buf, start, radix);
    TerminateAndReverse(buf, start, n, Digits(value, radix));
  }

  /** The end of `itoa`: the terminating NUL, and the reversal. */
  method TerminateAndReverse(buf: array<byte>, start: nat, n: nat, ghost s: seq<byte>)
    requires n == |s| && start + n < buf.Length && buf[start..start + n] == Reversed(s)
    requires forall i :: 0 <= i < n ==> s[i] != NUL
    modifies buf
    ensures buf[start..start + n] == s && buf[start + n] == NUL
    ensures forall j :: 0 <= j < buf.Length && !(start <= j <= start + n) ==> buf[j] == old(buf[j])
  {
    hide *;
    buf[start + n] := NUL;
    ghost var written := buf[start..start + n];
    assert written == Reversed(s);
    ReversedTwice(s);
    forall j | start <= j < start + n ensures buf[j] != NUL {
      assert buf[j] == written[j - start];
    }
    Strrev(buf, start, n);
  }

  /** Each hexadecimal digit takes four bits. */
  lemma {:induction false} HexShort(value: nat, k: nat)
    requires 0 < k && value < Pow2(4 * k)
    ensures |Digits(value, 16)| <= k
    decreases k
  {
    Quotient(value, 16);
    assert Pow2(4 * k) == 2 * Pow2(4 * k - 1) == 4 * Pow2(4 * k - 2) == 8 * Pow2(4 * k - 3) == 16 * Pow2(4 * (k - 1));
    if value >= 16 && k > 1 {
      HexShort(value / 16, k - 1);
    }
  }

  /** Leading zeros do not change what a string denotes. */
  lemma {:induction false} LeadingZeros(zeros: seq<byte>, s: seq<byte>, radix: nat)
    requires forall i :: 0 <= i < |zeros| ==> zeros[i] == DIGIT_0
    ensures Value(zeros + s, radix) == Value(s, radix)
    decreases |zeros| + |s|
  {
    if s != [] {
      assert (zeros + s)[..|zeros + s| - 1] == zeros + s[..|s| - 1];
      LeadingZeros(zeros, s[..|s| - 1], radix);
    } else if zeros != [] {
      LeadingZeros(zeros[..|zeros| - 1], s, radix);
      assert (zeros + s)[..|zeros + s| - 1] == zeros[..|zeros| - 1] + s;
    }
  }

  /** Eight characters made of zeros and a numeral. */
  lemma Padded(value: nat, zeros: seq<byte>)
    requires value < U32
    requires |zeros| + |Digits(value, 16)| == 8 && forall i :: 0 <= i < |zeros| ==> zeros[i] == DIGIT_0
    ensures Value(zeros + Digits(value, 16), 16) == value
    ensures forall i :: 0 <= i < 8 ==> DigitValue((zeros + Digits(value, 16))[i]) < 16
  {
    DigitsDenote(value, 16);
    LeadingZeros(zeros, Digits(value, 16), 16);
  }

  /** `%#x` in `printf`: the bytes it hands to `puts`. */
  method PrintHex(value: nat) returns (printed: seq<byte>)
    requires value < U32
    ensures |printed| == 8 && Value(printed, 16) == value
    ensures forall i :: 0 <= i < 8 ==> DigitValue(printed[i]) < 16
  {
    assert Radix(16);
    Pow32();
    HexShort(value, 8);
    hide *;
    var conv := new byte[64];
    Itoa(value, conv, 8, 16);
    ghost var s := Digits(value, 16);
    NoNuls(value, 16);
    forall j | 8 <= j < 8 + |s| ensures conv[j] != NUL {
      assert conv[j] == conv[8..8 + |s|][j - 8];
    }
    var starting := Strlen(conv, 8, |s|);
    ghost var zeros;
    printed, zeros := PadZeros(conv, starting, s);
    Padded(value, zeros);
  }

  /** The loop of `%#x`: zeros in front of the digits. */
  method PadZeros(conv: array<byte>, starting: nat, ghost s: seq<byte>)
    returns (printed: seq<byte>, ghost zeros: seq<byte>)
    requires conv.Length == 64 && starting == |s| <= 8 && conv[8..8 + |s|] == s
    modifies conv
    ensures printed == zeros + s && |printed| == 8 && forall i :: 0 <= i < |zeros| ==> zeros[i] == DIGIT_0
  {
    var i := starting;
    while i < 8
      invariant starting <= i <= 8
      invariant forall j :: starting <= j < i ==> conv[j] == DIGIT_0
      invariant conv[8..8 + |s|] == s
    {
      conv[i] := DIGIT_0;
      i := i + 1;
    }
    printed, zeros := conv[starting..8 + starting], conv[starting..8];
    assert printed == zeros + s;
  }

  // ----- Moves -----

  method MoveUp(mem: array<byte>, dest: nat, src: nat, n: nat)
    requires dest + n <= mem.Length && src + n <= mem.Length && src >= dest
    modifies mem
    ensures forall j :: dest <= j < dest + n ==> mem[j] == old(mem[j - dest + src])
    ensures forall j :: 0 <= j < mem.Length && !(dest <= j < dest + n) ==> mem[j] == old(mem[j])
  {
    ghost var was := mem[..];
    for i := 0 to n
      invariant forall j :: dest <= j < dest + i ==> mem[j] == was[j - dest + src]
      invariant forall j :: 0 <= j < mem.Length && !(dest <= j < dest + i) ==> mem[j] == was[j]
    {
      mem[dest + i] := mem[src + i];
    }
  }

  method MoveDown(mem: array<byte>, dest: nat, src: nat, n: nat)
    requires dest + n <= mem.Length && src + n <= mem.Length && src < dest
    modifies mem
    ensures forall j :: dest <= j < dest + n ==> mem[j] == old(mem[j - dest + src])
    ensures forall j :: 0 <= j < mem.Length && !(dest <= j < dest + n) ==> mem[j] == old(mem[j])
  {
    ghost var was := mem[..];
    for i := n downto 0
      invariant forall j :: dest + i <= j < dest + n ==> mem[j] == was[j - dest + src]
      invariant forall j :: 0 <= j < mem.Length && !(dest + i <= j < dest + n) ==> mem[j] == was[j]
    {
      mem[dest + i] := mem[src + i];
    }
  }

  /** `memmove` within one memory: upwards if the source is not below the destination, otherwise
      from the last byte down. */
  method Memmove(mem: array<byte>, dest: nat, src: nat, n: nat)
    requires dest + n <= mem.Length && src + n <= mem.Length
    modifies mem
    ensures mem[..] == old(mem[..dest]) + old(mem[src..src + n]) + old(mem[dest + n..])
  {
    if src >= dest {
      MoveUp(mem, dest, src, n);
    } else {
      MoveDown(mem, dest, src, n);
    }
  }
}
