/**
 How blinking cells look over time: a closed form for one cell, and what that means for the screen.
 */
module BlinkTiming {
  import opened Bytes
  import opened Basics
  import opened Blink

  /** How many ticks a length lasts: the countdown is decremented before a signed comparison with 0,
      so 0 and everything above 32768 expire at once. */
  function Effective(length: u16): (ticks: nat)
    ensures ticks >= 1
  {
    if 1 <= length <= 0x8000 then length else 1
  }

  function Period(c: Cell): (p: nat)
    ensures p >= 2
  {
    Effective(c.onLength) + Effective(c.offLength)
  }

  function Ticked(c: Cell, n: nat): Cell {
    if n == 0 then c else TickCell(Ticked(c, n - 1))
  }

  /** The state of a cell m ticks into its period. */
  function AtPhase(c: Cell, m: nat): Cell
    requires m < Period(c)
  {
    var on := Effective(c.onLength);
    if m == 0 then Started(c)
    else if m < on then c.(status := 1, countdown := c.onLength - m)
    else if m == on then c.(status := 0, countdown := c.offLength)
    else c.(status := 0, countdown := c.offLength - (m - on))
  }

  lemma NextPhase(c: Cell, m: nat)
    requires m < Period(c)
    ensures TickCell(AtPhase(c, m)) == AtPhase(c, if m + 1 == Period(c) then 0 else m + 1)
  {
  }

  lemma ModStep(n: nat, p: nat)
    requires p > 0
    ensures (n + 1) % p == if n % p == p - 1 then 0 else n % p + 1
  {
    var q, r := n / p, n % p;
    assert n == q * p + r;
    if r == p - 1 {
      assert n + 1 == (q + 1) * p;
      ModIs(n + 1, p, q + 1, 0);
    } else {
      ModIs(n + 1, p, q, r + 1);
    }
  }

  lemma ModIs(x: nat, p: nat, q: nat, r: nat)
    requires p > 0 && x == q * p + r && r < p
    ensures x % p == r
  {
    var k := x / p - q;
    assert x == x / p * p + x % p;
    assert k * p == x / p * p - q * p;
    Multiple(k, p);
  }

  lemma StartOfPeriod(user: Cell)
    ensures AtPhase(user, 0) == Started(user) && 0 % Period(user) == 0
  {
  }

  /** The closed form: n ticks after it was added, a cell is n mod its period into that period. */
  lemma {:induction false} ClosedForm(user: Cell, n: nat)
    ensures Ticked(Started(user), n) == AtPhase(user, n % Period(user))
  {
    hide TickCell, AtPhase, Started, Period;
    if n == 0 {
      StartOfPeriod(user);
    } else {
      ClosedForm(user, n - 1);
      NextPhase(user, (n - 1) % Period(user));
      ModStep(n - 1, Period(user));
    }
  }

  /** So it is on exactly in the first part of its period. */
  lemma OnOrOff(user: Cell, n: nat)
    ensures var on := if 1 <= user.onLength <= 32768 then user.onLength else 1;
            var off := if 1 <= user.offLength <= 32768 then user.offLength else 1;
            var c := Ticked(Started(user), n);
            && c.status == (if n % (on + off) < on then 1 else 0)
            && Shown(c) == if n % (on + off) < on then user.onChar else user.offChar
  {
    ClosedForm(user, n);
  }

  // ----- The whole list -----

  /** n ticks of the engine: the list and the screen. */
  function TickedList(cells: seq<Cell>, n: nat): (r: seq<Cell>)
    ensures |r| == |cells|
  {
    if n == 0 then cells else TickList(TickedList(cells, n - 1))
  }

  lemma {:induction false} TickedListAt(cells: seq<Cell>, n: nat)
    ensures |TickedList(cells, n)| == |cells|
    ensures forall i :: 0 <= i < |cells| ==> TickedList(cells, n)[i] == Ticked(cells[i], n)
  {
    if n > 0 {
      TickedListAt(cells, n - 1);
    }
  }

  lemma {:induction false} SameText(c: Cell, n: nat)
    ensures Ticked(c, n).location == c.location && Ticked(c, n).onChar == c.onChar && Ticked(c, n).offChar == c.offChar
    ensures Ticked(c, n).onLength == c.onLength && Ticked(c, n).offLength == c.offLength
  {
    if n > 0 {
      SameText(c, n - 1);
    }
  }

  lemma StaysOnScreen(cells: seq<Cell>, n: nat)
    requires OnScreen(cells)
    ensures OnScreen(TickedList(cells, n))
  {
    TickedListAt(cells, n);
    forall i | 0 <= i < |cells| ensures 0 < TickedList(cells, n)[i].location < CELLS {
      SameText(cells[i], n);
    }
  }

  ghost function TickedScreen(cells: seq<Cell>, screen: seq<byte>, n: nat): (r: seq<byte>)
    requires |screen| == PAGE_BYTES && OnScreen(cells)
    ensures |r| == PAGE_BYTES
  {
    if n == 0 then screen
    else
      StaysOnScreen(cells, n - 1);
      TickScreen(TickedList(cells, n - 1), TickedScreen(cells, screen, n - 1))
  }

  /** One tick at one place: a lone cell that shows its character still does, and where there is no
      cell nothing changes. */
  lemma {:induction false} TickAt(cells: seq<Cell>, screen: seq<byte>, i: nat)
    requires |screen| == PAGE_BYTES && OnScreen(cells) && i < |cells|
    requires forall j :: 0 <= j < |cells| && j != i ==> cells[j].location != cells[i].location
    requires screen[2 * cells[i].location] == Shown(cells[i])
    ensures TickScreen(cells, screen)[2 * cells[i].location] == Shown(TickCell(cells[i]))
    decreases |cells|
  {
    var n := |cells| - 1;
    if i < n {
      TickAt(cells[..n], screen, i);
    } else {
      TickElsewhere(cells[..n], screen, 2 * cells[i].location);
    }
  }

  lemma {:induction false} TickElsewhere(cells: seq<Cell>, screen: seq<byte>, at: nat)
    requires |screen| == PAGE_BYTES && OnScreen(cells) && at < PAGE_BYTES
    requires forall j :: 0 <= j < |cells| ==> 2 * cells[j].location != at
    ensures TickScreen(cells, screen)[at] == screen[at]
    decreases |cells|
  {
    if cells != [] {
      TickElsewhere(cells[..|cells| - 1], screen, at);
    }
  }

  /** A cell that alone holds its location is shown there on every later tick. */
  lemma {:induction false} ShownAt(cells: seq<Cell>, screen: seq<byte>, i: nat, n: nat)
    requires |screen| == PAGE_BYTES && OnScreen(cells) && i < |cells|
    requires forall j :: 0 <= j < |cells| && j != i ==> cells[j].location != cells[i].location
    requires screen[2 * cells[i].location] == Shown(cells[i])
    ensures TickedScreen(cells, screen, n)[2 * cells[i].location] == Shown(Ticked(cells[i], n))
    decreases n
  {
    if n > 0 {
      ShownAt(cells, screen, i, n - 1);
      StaysOnScreen(cells, n - 1);
      TickedListAt(cells, n - 1);
      forall j | 0 <= j < |cells| ensures TickedList(cells, n - 1)[j].location == cells[j].location {
        SameText(cells[j], n - 1);
      }
      TickAt(TickedList(cells, n - 1), TickedScreen(cells, screen, n - 1), i);
    }
  }

  /** A byte under no cell never changes. */
  lemma {:induction false} UntouchedAt(cells: seq<Cell>, screen: seq<byte>, at: nat, n: nat)
    requires |screen| == PAGE_BYTES && OnScreen(cells) && at < PAGE_BYTES
    requires forall j :: 0 <= j < |cells| ==> 2 * cells[j].location != at
    ensures TickedScreen(cells, screen, n)[at] == screen[at]
    decreases n
  {
    if n > 0 {
      UntouchedAt(cells, screen, at, n - 1);
      StaysOnScreen(cells, n - 1);
      TickedListAt(cells, n - 1);
      forall j | 0 <= j < |cells| ensures TickedList(cells, n - 1)[j].location == cells[j].location {
        SameText(cells[j], n - 1);
      }
      TickElsewhere(TickedList(cells, n - 1), TickedScreen(cells, screen, n - 1), at);
    }
  }

  ghost predicate SameTiming(c: Cell, d: Cell) {
    && c.onLength == d.onLength && c.offLength == d.offLength
    && c.countdown == d.countdown && c.status == d.status
  }

  lemma {:induction false} TickedTogether(c: Cell, d: Cell, n: nat)
    requires SameTiming(c, d)
    ensures SameTiming(Ticked(c, n), Ticked(d, n))
  {
    if n > 0 {
      TickedTogether(c, d, n - 1);
    }
  }

  /** After a sync the two cells change together for ever. */
  lemma InStep(cells: seq<Cell>, from: u16, to: u16, n: nat)
    requires FindList(cells, from) != -1 && FindList(cells, to) != -1
    ensures var i, j := FindList(cells, from), FindList(cells, to);
            var later := TickedList(SyncList(cells, from, to), n);
            |later| == |cells| && SameTiming(later[i], later[j])
  {
    hide TickedList, Ticked;
    var i, j := FindList(cells, from), FindList(cells, to);
    var synced := SyncList(cells, from, to);
    TickedTogether(synced[i], synced[j], n);
    TickedListAt(synced, n);
  }
}
