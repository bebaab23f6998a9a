/** The whole animation: from two files on disk to every byte of the screen, at every tick. */
module Animation {
  import opened Bytes
  import opened Blink
  import opened BlinkTiming
  import opened FileSystem
  import opened Frames
  import D = Descriptors

  /** Everything the two texts show has a cell of its own on the screen. */
  ghost predicate Fits(l0: seq<seq<byte>>, l1: seq<seq<byte>>) {
    forall row: nat, col: nat :: Visible(l0, l1, row, col) ==> col < COLUMNS && Place(row, col) < CELLS
  }

  /** At most 25 rows, where a newline may also end the last one. */
  ghost predicate SmallFrame(lines: seq<seq<byte>>) {
    |lines| <= 25 || (|lines| == 26 && lines[25] == [])
  }

  /** Two frames of at most 25 rows and 40 columns do. */
  lemma SmallFits(l0: seq<seq<byte>>, l1: seq<seq<byte>>)
    requires SmallFrame(l0) && SmallFrame(l1)
    requires forall line :: line in l0 || line in l1 ==> |line| <= 40
    ensures Fits(l0, l1)
  {
    forall row: nat, col: nat | Visible(l0, l1, row, col) ensures col < COLUMNS && Place(row, col) < CELLS {
      assert col < |Row(l0, row)| || col < |Row(l1, row)|;
      assert row < |l0| ==> l0[row] in l0;
      assert row < |l1| ==> l1[row] in l1;
    }
  }

  ghost predicate Sorted(users: seq<Cell>) {
    forall i, j :: 0 <= i < j < |users| ==> users[i].location < users[j].location
  }

  ghost predicate Within(users: seq<Cell>, low: nat, high: nat) {
    forall i :: 0 <= i < |users| ==> low <= users[i].location < high
  }

  /** Every request is for a visible place. */
  ghost predicate Sound(l0: seq<seq<byte>>, l1: seq<seq<byte>>, users: seq<Cell>) {
    forall i :: 0 <= i < |users| ==> Asked(l0, l1, users[i])
  }

  ghost predicate Asked(l0: seq<seq<byte>>, l1: seq<seq<byte>>, user: Cell) {
    exists row: nat, col: nat :: Visible(l0, l1, row, col) && user == Request(l0, l1, row, col)
  }

  lemma {:induction false} RowSorted(l0: seq<seq<byte>>, l1: seq<seq<byte>>, row: nat, cols: nat)
    requires Fits(l0, l1)
    ensures var users := RowRequests(l0, l1, row, cols);
            && Sorted(users) && Sound(l0, l1, users)
            && Within(users, Place(row, 0), Place(row, if cols < COLUMNS then cols else COLUMNS))
            && (forall i :: 0 <= i < |users| ==> users[i].location < CELLS)
    decreases cols
  {
    hide CharAt, Fits, Asked, Visible;
    if cols > 0 {
      RowSorted(l0, l1, row, cols - 1);
      if Visible(l0, l1, row, cols - 1) {
        OneRequest(l0, l1, row, cols - 1);
      }
    }
  }

  lemma OneRequest(l0: seq<seq<byte>>, l1: seq<seq<byte>>, row: nat, col: nat)
    requires Fits(l0, l1) && Visible(l0, l1, row, col)
    ensures col < COLUMNS && Request(l0, l1, row, col).location == Place(row, col) < CELLS
    ensures Asked(l0, l1, Request(l0, l1, row, col))
  {
    hide CharAt;
    assert Place(row, col) < CELLS;
  }

  /** The requests of two texts that fit: sorted, each for a visible place, none off the screen. */
  ghost predicate Proper(l0: seq<seq<byte>>, l1: seq<seq<byte>>, users: seq<Cell>) {
    Sorted(users) && Sound(l0, l1, users) && Within(users, 1, CELLS)
  }

  lemma ProperConcat(l0: seq<seq<byte>>, l1: seq<seq<byte>>, a: seq<Cell>, b: seq<Cell>, mid: nat, high: nat)
    requires Sorted(a) && Sound(l0, l1, a) && Within(a, 1, mid) && Within(a, 1, CELLS)
    requires Sorted(b) && Sound(l0, l1, b) && Within(b, mid, high) && Within(b, 1, CELLS) && mid <= high
    ensures Proper(l0, l1, a + b) && Within(a + b, 1, high)
  {
    forall i | 0 <= i < |a + b|
      ensures Asked(l0, l1, (a + b)[i]) && 1 <= (a + b)[i].location < high && (a + b)[i].location < CELLS
    {
      assert i < |a| ==> Asked(l0, l1, a[i]) && a[i].location < mid;
      assert i >= |a| ==> Asked(l0, l1, b[i - |a|]) && b[i - |a|].location >= mid;
    }
  }

  lemma {:induction false} RowsSorted(l0: seq<seq<byte>>, l1: seq<seq<byte>>, rows: nat)
    requires Fits(l0, l1)
    ensures Proper(l0, l1, Requests(l0, l1, rows)) && Within(Requests(l0, l1, rows), 1, Place(rows, 0))
    decreases rows
  {
    if rows > 0 {
      hide Fits, Sorted, Sound, RowRequests, Asked;
      var width := Max(|Row(l0, rows - 1)|, |Row(l1, rows - 1)|);
      RowsSorted(l0, l1, rows - 1);
      RowSorted(l0, l1, rows - 1, width);
      assert Place(rows - 1, COLUMNS) == Place(rows, 0);
      ProperConcat(l0, l1, Requests(l0, l1, rows - 1), RowRequests(l0, l1, rows - 1, width),
                   Place(rows - 1, 0), Place(rows, 0));
    }
  }

  lemma {:induction false} InRow(l0: seq<seq<byte>>, l1: seq<seq<byte>>, row: nat, cols: nat, col: nat)
    requires Visible(l0, l1, row, col) && col < cols
    ensures Request(l0, l1, row, col) in RowRequests(l0, l1, row, cols)
    decreases cols
  {
    if col < cols - 1 {
      InRow(l0, l1, row, cols - 1, col);
    }
  }

  /** Every visible place is requested. */
  lemma {:induction false} Complete(l0: seq<seq<byte>>, l1: seq<seq<byte>>, rows: nat, row: nat, col: nat)
    requires Visible(l0, l1, row, col) && row < rows
    ensures Request(l0, l1, row, col) in Requests(l0, l1, rows)
    decreases rows
  {
    if row < rows - 1 {
      Complete(l0, l1, rows - 1, row, col);
    } else {
      InRow(l0, l1, row, Max(|Row(l0, row)|, |Row(l1, row)|), col);
    }
  }

  /** After these adds the list is the requests, newest first, and each shows its first character. */
  ghost predicate Painted(screen: seq<byte>, users: seq<Cell>, b: Board)
    requires |screen| == PAGE_BYTES && |b.screen| == PAGE_BYTES
  {
    && |b.cells| == |users|
    && (forall k :: 0 <= k < |users| ==> b.cells[k] == Started(users[|users| - 1 - k]))
    && (forall i :: 0 <= i < |users| ==>
          0 < users[i].location < CELLS && b.screen[2 * users[i].location] == users[i].onChar)
    && (forall at :: 0 <= at < PAGE_BYTES && (forall i :: 0 <= i < |users| ==> at != 2 * users[i].location) ==>
          b.screen[at] == screen[at])
  }

  lemma {:induction false} SortedIsShort(users: seq<Cell>, n: nat)
    requires Sorted(users) && Within(users, 1, CELLS) && n < |users|
    ensures users[n].location > n
    decreases n
  {
    if n > 0 {
      SortedIsShort(users, n - 1);
    }
  }

  lemma PaintOne(screen: seq<byte>, users: seq<Cell>, b: Board, user: Cell)
    requires |screen| == PAGE_BYTES && |b.screen| == PAGE_BYTES && Painted(screen, users, b)
    requires 0 < user.location < CELLS && forall i :: 0 <= i < |users| ==> users[i].location != user.location
    ensures Painted(screen, users + [user],
                    Board([Started(user)] + b.cells, Poke(b.screen, user.location, user.onChar)))
  {
    hide Started;
    var all := users + [user];
    var b' := Board([Started(user)] + b.cells, Poke(b.screen, user.location, user.onChar));
    assert forall i :: 0 <= i < |users| ==> all[i] == users[i];
    assert forall k :: 0 <= k < |all| ==> b'.cells[k] == if k == 0 then Started(user) else b.cells[k - 1];
    forall at | 0 <= at < PAGE_BYTES && forall i :: 0 <= i < |all| ==> at != 2 * all[i].location
      ensures b'.screen[at] == screen[at]
    {
      assert at != 2 * all[|users|].location;
      assert forall i :: 0 <= i < |users| ==> at != 2 * all[i].location;
    }
  }

  lemma {:induction false} AllPainted(screen: seq<byte>, users: seq<Cell>)
    requires |screen| == PAGE_BYTES && Sorted(users) && Within(users, 1, CELLS)
    ensures Painted(screen, users, AddAll(Board([], screen), users))
    decreases |users|
  {
    if users != [] {
      var n := |users| - 1;
      AllPainted(screen, users[..n]);
      SortedIsShort(users, n);
      PaintOne(screen, users[..n], AddAll(Board([], screen), users[..n]), users[n]);
      assert users[..n] + [users[n]] == users;
    }
  }

  /** What a visible place shows n ticks after the frames were added: the first text's character in
      the first half of each period, the second text's in the other. */
  ghost predicate ShowsTexts(l0: seq<seq<byte>>, l1: seq<seq<byte>>, n: nat, now: seq<byte>)
    requires |now| == PAGE_BYTES && Fits(l0, l1)
  {
    forall row: nat, col: nat :: Visible(l0, l1, row, col) ==>
      now[160 * row + 2 * col + 80] == if n % 30 < 15 then CharAt(l0, row, col) else CharAt(l1, row, col)
  }

  /** `at` is not the character of a visible place. */
  ghost predicate Outside(l0: seq<seq<byte>>, l1: seq<seq<byte>>, at: nat) {
    forall row: nat, col: nat :: Visible(l0, l1, row, col) ==> at != 160 * row + 2 * col + 80
  }

  /** Everything else is as it was. */
  ghost predicate LeavesRest(l0: seq<seq<byte>>, l1: seq<seq<byte>>, screen: seq<byte>, now: seq<byte>)
    requires |screen| == PAGE_BYTES && |now| == PAGE_BYTES
  {
    forall at :: 0 <= at < PAGE_BYTES && Outside(l0, l1, at) ==> now[at] == screen[at]
  }

  lemma PaintedOnScreen(screen: seq<byte>, users: seq<Cell>, b: Board)
    requires |screen| == PAGE_BYTES && |b.screen| == PAGE_BYTES && Painted(screen, users, b)
    ensures OnScreen(b.cells)
  {
  }

  lemma ShownPlace(screen: seq<byte>, users: seq<Cell>, b: Board, i: nat, n: nat)
    requires |screen| == PAGE_BYTES && |b.screen| == PAGE_BYTES && Painted(screen, users, b) && OnScreen(b.cells)
    requires Sorted(users) && i < |users| && users[i].onLength == users[i].offLength == HALF
    ensures TickedScreen(b.cells, b.screen, n)[2 * users[i].location]
            == if n % (2 * HALF) < HALF then users[i].onChar else users[i].offChar
  {
    var k := |users| - 1 - i;
    assert b.cells[k] == Started(users[i]);
    ShownAt(b.cells, b.screen, k, n);
    OnOrOff(users[i], n);
  }

  lemma OutsideStays(l0: seq<seq<byte>>, l1: seq<seq<byte>>, screen: seq<byte>, users: seq<Cell>, b: Board,
                     at: nat, n: nat)
    requires |screen| == PAGE_BYTES && |b.screen| == PAGE_BYTES && Painted(screen, users, b) && OnScreen(b.cells)
    requires Sound(l0, l1, users) && Fits(l0, l1) && at < PAGE_BYTES && Outside(l0, l1, at)
    ensures TickedScreen(b.cells, b.screen, n)[at] == screen[at]
  {
    hide CharAt, TickedScreen, OnScreen, Visible;
    forall i | 0 <= i < |users| ensures at != 2 * users[i].location {
      assert Asked(l0, l1, users[i]);
      var row: nat, col: nat :| Visible(l0, l1, row, col) && users[i] == Request(l0, l1, row, col);
      OneRequest(l0, l1, row, col);
    }
    UntouchedAt(b.cells, b.screen, at, n);
  }

  lemma VisiblePlace(l0: seq<seq<byte>>, l1: seq<seq<byte>>, screen: seq<byte>, b: Board, row: nat, col: nat, n: nat)
    requires |screen| == PAGE_BYTES && |b.screen| == PAGE_BYTES && OnScreen(b.cells) && Fits(l0, l1)
    requires Painted(screen, AllRequests(l0, l1), b) && Sorted(AllRequests(l0, l1)) && Visible(l0, l1, row, col)
    ensures Place(row, col) < CELLS
    ensures TickedScreen(b.cells, b.screen, n)[2 * Place(row, col)]
            == if n % (2 * HALF) < HALF then CharAt(l0, row, col) else CharAt(l1, row, col)
  {
    hide Painted, Sorted, TickedScreen, Requests, OnScreen;
    var users := AllRequests(l0, l1);
    assert Place(row, col) < CELLS;
    assert row < |l0| || row < |l1|;
    Complete(l0, l1, Max(|l0|, |l1|), row, col);
    var i :| 0 <= i < |users| && users[i] == Request(l0, l1, row, col);
    ShownPlace(screen, users, b, i, n);
  }

  /** The animation theorem. */
  lemma Animates(l0: seq<seq<byte>>, l1: seq<seq<byte>>, screen: seq<byte>, n: nat)
    requires |screen| == PAGE_BYTES && Fits(l0, l1)
    ensures var b := AddAll(Board([], screen), AllRequests(l0, l1));
            && OnScreen(b.cells)
            && ShowsTexts(l0, l1, n, TickedScreen(b.cells, b.screen, n))
            && LeavesRest(l0, l1, screen, TickedScreen(b.cells, b.screen, n))
  {
    hide Painted, Sorted, Within, Sound, AddAll, TickedScreen, Requests, Outside, OnScreen, CharAt;
    var users := AllRequests(l0, l1);
    var b := AddAll(Board([], screen), users);
    RowsSorted(l0, l1, Max(|l0|, |l1|));
    AllPainted(screen, users);
    PaintedOnScreen(screen, users, b);
    var now := TickedScreen(b.cells, b.screen, n);
    forall row: nat, col: nat | Visible(l0, l1, row, col)
      ensures 160 * row + 2 * col + 80 < 4096
      ensures now[160 * row + 2 * col + 80] == if n % 30 < 15 then CharAt(l0, row, col) else CharAt(l1, row, col)
    {
      VisiblePlace(l0, l1, screen, b, row, col, n);
    }
    forall at | 0 <= at < PAGE_BYTES && Outside(l0, l1, at) ensures now[at] == screen[at] {
      OutsideStays(l0, l1, screen, users, b, at, n);
    }
  }

  /** What that means for one place: a line that has ended and a text that has ended show blanks, and a place
      that is blank in both texts is left alone. */
  lemma PlaceShows(l0: seq<seq<byte>>, l1: seq<seq<byte>>, screen: seq<byte>, now: seq<byte>, n: nat,
                   row: nat, col: nat)
    requires |screen| == |now| == 4096 && Fits(l0, l1) && ShowsTexts(l0, l1, n, now) && LeavesRest(l0, l1, screen, now)
    requires col < 80 && 80 * row + col + 40 < 2000
    ensures var c0 := if row < |l0| && col < |l0[row]| then l0[row][col] else 32;
            var c1 := if row < |l1| && col < |l1[row]| then l1[row][col] else 32;
            now[160 * row + 2 * col + 80] ==
            if c0 == 32 && c1 == 32 then screen[160 * row + 2 * col + 80] else if n % 30 < 15 then c0 else c1
  {
    if !Visible(l0, l1, row, col) {
      var at := 160 * row + 2 * col + 80;
      forall r: nat, c: nat | Visible(l0, l1, r, c) ensures at != 160 * r + 2 * c + 80 {
        assert c < COLUMNS;
        assert r != row || c != col;
      }
      assert Outside(l0, l1, at);
    }
  }

  /** The colours, the first 40 places and what is behind the screen are left alone. */
  lemma OthersStay(l0: seq<seq<byte>>, l1: seq<seq<byte>>, screen: seq<byte>, now: seq<byte>, at: nat)
    requires |screen| == |now| == 4096 && Fits(l0, l1) && LeavesRest(l0, l1, screen, now)
    requires at < 4096 && (at % 2 == 1 || at < 80 || at >= 4000)
    ensures now[at] == screen[at]
  {
    forall row: nat, col: nat | Visible(l0, l1, row, col) ensures at != 160 * row + 2 * col + 80 {
      assert Place(row, col) < CELLS;
    }
    assert Outside(l0, l1, at);
  }

  /** "rtc" */
  const CLOCK: seq<byte> := [114, 116, 99]

  /** The descriptor table when the clock has been opened, which may take a descriptor. */
  function WithClock(img: Image, f: D.Files): (r: D.Files)
    requires Blocks(img) && D.Table(f)
    ensures D.Table(r) && r == D.OpenStep(img, f, [114, 116, 99]).0
  {
    D.OpenStep(img, f, CLOCK).0
  }

  /** A new program has at least five descriptors free: it is not halted if both files are there. */
  lemma NewProgramPlays(img: Image, f: D.Files, f0: seq<byte>, f1: seq<byte>)
    requires D.Consistent(img, f) && forall i :: 2 <= i <= 6 ==> f.fds[i].flags == 0
    ensures CanOpenBoth(img, WithClock(img, f).fds, f0, f1) <==> Present(img, f0) && Present(img, f1)
  {
    hide Word, FindEntry, Contents, Present;
    var r := WithClock(img, f);
    assert D.LowestFree(f.fds) == 2;
    assert r.fds[3].flags == 0 && r.fds[4].flags == 0;
  }

  /** The program's `main` up to its first n clock ticks, from an empty pool. */
  method Play(pcb: D.Pcb, engine: Engine, f0: seq<byte>, f1: seq<byte>, n: nat) returns (halted: bool)
    requires pcb.Valid() && Frame(pcb.img, f0) && Frame(pcb.img, f1)
    requires engine.Valid() && engine.List() == []
    requires FindEntry(pcb.img, f0) != -1 && FindEntry(pcb.img, f1) != -1 ==>
               Fits(LinesOf(pcb.img, f0), LinesOf(pcb.img, f1))
    modifies pcb, pcb.fd, engine, engine.pool, engine.vmem
    ensures halted <==> !CanOpenBoth(pcb.img, WithClock(pcb.img, old(pcb.Abs())).fds, f0, f1)
    ensures halted ==> engine.vmem[..] == old(engine.vmem[..])
    ensures !halted ==>
              && engine.vmem.Length == PAGE_BYTES
              && ShowsTexts(LinesOf(pcb.img, f0), LinesOf(pcb.img, f1), n, engine.vmem[..])
              && LeavesRest(LinesOf(pcb.img, f0), LinesOf(pcb.img, f1), old(engine.vmem[..]), engine.vmem[..])
  {
    ghost var screen, img := engine.vmem[..], pcb.img;
    halted := SetUp(pcb, engine, f0, f1);
    if halted {
      return;
    }
    ghost var l0, l1 := LinesOf(img, f0), LinesOf(img, f1);
    ghost var b := AddAll(Board([], screen), AllRequests(l0, l1));
    Animates(l0, l1, screen, n);
    hide AddAll, AllRequests, Agree, Cells, LinesOf, ShowsTexts, LeavesRest;
    TickOn(engine, n, b);
  }

  /** Before the ticks: the clock is opened, and the frames are added. */
  method SetUp(pcb: D.Pcb, engine: Engine, f0: seq<byte>, f1: seq<byte>) returns (halted: bool)
    requires pcb.Valid() && Frame(pcb.img, f0) && Frame(pcb.img, f1)
    requires engine.Valid() && engine.List() == []
    requires FindEntry(pcb.img, f0) != -1 && FindEntry(pcb.img, f1) != -1 ==>
               Fits(LinesOf(pcb.img, f0), LinesOf(pcb.img, f1))
    modifies pcb, pcb.fd, engine, engine.pool, engine.vmem
    ensures pcb.Valid() && engine.Shaped()
    ensures halted <==> !CanOpenBoth(pcb.img, WithClock(pcb.img, old(pcb.Abs())).fds, f0, f1)
    ensures halted ==> engine.vmem[..] == old(engine.vmem[..])
    ensures !halted ==>
              && engine.Valid() && |old(engine.vmem[..])| == PAGE_BYTES
              && Board(engine.List(), engine.vmem[..])
                 == AddAll(Board([], old(engine.vmem[..])), AllRequests(LinesOf(pcb.img, f0), LinesOf(pcb.img, f1)))
  {
    hide Fits, AddAll, AllRequests, LinesOf, Word, FindEntry, Contents, Agree, Cells;
    var clock := pcb.Open(CLOCK);
    assert pcb.fd[..] == pcb.Abs().fds;
    halted := AddFrames(pcb, engine, f0, f1);
    if !halted {
      NoneAtZero(LinesOf(pcb.img, f0), LinesOf(pcb.img, f1));
    }
  }

  lemma NoneAtZero(l0: seq<seq<byte>>, l1: seq<seq<byte>>)
    requires Fits(l0, l1)
    ensures forall i :: 0 <= i < |AllRequests(l0, l1)| ==> AllRequests(l0, l1)[i].location != 0
  {
    RowsSorted(l0, l1, Max(|l0|, |l1|));
  }

  /** The loop of clock ticks. */
  method TickOn(engine: Engine, n: nat, ghost b: Board)
    requires engine.Valid() && b == Board(engine.List(), engine.vmem[..])
    modifies engine.pool, engine.vmem
    ensures engine.Valid() && engine.List() == TickedList(b.cells, n)
    ensures |b.screen| == PAGE_BYTES && OnScreen(b.cells) && engine.vmem[..] == TickedScreen(b.cells, b.screen, n)
  {
    hide Agree, Cells;
    for i := 0 to n
      invariant engine.Valid() && engine.List() == TickedList(b.cells, i)
      invariant engine.vmem[..] == TickedScreen(b.cells, b.screen, i)
    {
      engine.Tick();
    }
  }
}
