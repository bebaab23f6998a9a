/**
 The blinking-character engine: a list threaded through a pool of 2000 nodes, whose allocator
 takes a node to be free when its location is 0.  `Cells` is the list without its links.
 */
module Blink {
  import opened Bytes
  import opened Basics

  const CELLS := 2000          // 80 * 25, the pool and the screen alike
  const PAGE_BYTES := 4096
  const NULL := -1

  type u16 = x: int | 0 <= x < 0x1_0000

  /** What a user passes in and gets back; countdown and status are the engine's. */
  datatype Cell = Cell(location: u16, onChar: byte, offChar: byte, onLength: u16, offLength: u16,
                       countdown: u16, status: u16)

  datatype Node = Node(cell: Cell, next: int)

  datatype Heap = Heap(pool: seq<Node>, head: int)

  const FREE := Node(Cell(0, 0, 0, 0, 0, 0, 0), NULL)

  // ----- One cell -----

  function Started(user: Cell): Cell {
    user.(status := 1, countdown := user.onLength)
  }

  /** `decw`, then a signed comparison with 0. */
  predicate Expires(c: Cell) {
    var left := (c.countdown - 1) % 0x1_0000;
    left == 0 || left >= 0x8000
  }

  function TickCell(c: Cell): Cell {
    if !Expires(c) then c.(countdown := c.countdown - 1)
    else if c.status % 2 == 1 then c.(countdown := c.offLength, status := c.status - 1)
    else c.(countdown := c.onLength, status := c.status + 1)
  }

  /** The character a cell shows. */
  function Shown(c: Cell): byte {
    if c.status % 2 == 1 then c.onChar else c.offChar
  }

  // ----- The list -----

  function Poke(screen: seq<byte>, location: nat, b: byte): (r: seq<byte>)
    requires |screen| == PAGE_BYTES && location < CELLS
    ensures |r| == PAGE_BYTES
  {
    screen[2 * location := b]
  }

  ghost predicate OnScreen(cells: seq<Cell>) {
    forall i :: 0 <= i < |cells| ==> 0 < cells[i].location < CELLS
  }

  function TickList(cells: seq<Cell>): (r: seq<Cell>)
    ensures |r| == |cells|
  {
    seq(|cells|, i requires 0 <= i < |cells| => TickCell(cells[i]))
  }

  /** The screen after a tick: each cell that changes repaints itself, in list order. */
  function TickScreen(cells: seq<Cell>, screen: seq<byte>): (r: seq<byte>)
    requires |screen| == PAGE_BYTES && OnScreen(cells)
    ensures |r| == PAGE_BYTES
  {
    if cells == [] then screen
    else
      var n := |cells| - 1;
      var before := TickScreen(cells[..n], screen);
      if Expires(cells[n]) then Poke(before, cells[n].location, Shown(TickCell(cells[n]))) else before
  }

  function AddList(cells: seq<Cell>, user: Cell): seq<Cell> {
    if user.location < CELLS && |cells| < CELLS then [Started(user)] + cells else cells
  }

  /** The first cell at a location, which is the one added last; -1 when there is none. */
  function FindList(cells: seq<Cell>, location: u16): (i: int)
    ensures i == -1 ==> forall j :: 0 <= j < |cells| ==> cells[j].location != location
    ensures i != -1 ==>
              && 0 <= i < |cells| && cells[i].location == location
              && forall j :: 0 <= j < i ==> cells[j].location != location
  {
    if cells == [] then -1
    else if cells[0].location == location then 0
    else
      var i := FindList(cells[1..], location);
      if i == -1 then -1 else i + 1
  }

  lemma FoundFirst(cells: seq<Cell>, location: u16, i: nat)
    requires i < |cells| && cells[i].location == location && forall j :: 0 <= j < i ==> cells[j].location != location
    ensures FindList(cells, location) == i
  {
  }

  function RemoveList(cells: seq<Cell>, location: u16): seq<Cell> {
    var i := FindList(cells, location);
    if i == -1 then cells else cells[..i] + cells[i + 1..]
  }

  /** What was added last is found first, and removing at its location takes back the add exactly when
      it was accepted or the location was empty. */
  lemma AddThenRemove(cells: seq<Cell>, user: Cell)
    ensures var accepted := user.location < CELLS && |cells| < CELLS;
            && (accepted ==> FindList(AddList(cells, user), user.location) == 0)
            && (RemoveList(AddList(cells, user), user.location) == cells
                <==> accepted || FindList(cells, user.location) == -1)
  {
    var added := AddList(cells, user);
    var removed := RemoveList(added, user.location);
    if user.location < CELLS && |cells| < CELLS {
      assert added[0].location == user.location && added[..0] == [] && added[1..] == cells;
    } else {
      assert FindList(cells, user.location) != -1 ==> |removed| < |cells|;
    }
  }

  /** Cell i is the first at this location. */
  ghost predicate FirstAt(cells: seq<Cell>, location: int, i: int) {
    0 <= i < |cells| && cells[i].location == location && forall k :: 0 <= k < i ==> cells[k].location != location
  }

  /** An add puts the user's cell in front of the list, on, and with its whole on length to go. */
  lemma AddIs(cells: seq<Cell>, user: Cell)
    ensures AddList(cells, user) ==
            if user.location < 2000 && |cells| < 2000 then
              [Cell(user.location, user.onChar, user.offChar, user.onLength, user.offLength, user.onLength, 1)] + cells
            else cells
  {
  }

  /** A remove takes out the first cell at the location, and the list closes behind it. */
  lemma RemoveFirst(a: seq<Cell>, c: Cell, b: seq<Cell>)
    requires forall i :: 0 <= i < |a| ==> a[i].location != c.location
    ensures RemoveList(a + [c] + b, c.location) == a + b
  {
    FoundFirst(a + [c] + b, c.location, |a|);
  }

  lemma RemoveNone(cells: seq<Cell>, location: u16)
    requires forall i :: 0 <= i < |cells| ==> cells[i].location != location
    ensures RemoveList(cells, location) == cells
  {
  }

  lemma RemoveFound(cells: seq<Cell>, location: u16, i: int)
    requires i == FindList(cells, location)
    ensures RemoveList(cells, location) == if i == -1 then cells else cells[..i] + cells[i + 1..]
  {
  }

  lemma RemoveIs(cells: seq<Cell>, location: u16)
    ensures forall i :: FirstAt(cells, location, i) ==>
              FindList(cells, location) == i && RemoveList(cells, location) == cells[..i] + cells[i + 1..]
    ensures (forall i :: !FirstAt(cells, location, i)) ==>
              FindList(cells, location) == -1 && RemoveList(cells, location) == cells
  {
    forall i | FirstAt(cells, location, i) ensures FindList(cells, location) == i {
      FoundFirst(cells, location, i);
    }
    var i := FindList(cells, location);
    assert i != -1 ==> FirstAt(cells, location, i);
  }

  function Synced(from: Cell, to: Cell): Cell {
    to.(onLength := from.onLength, offLength := from.offLength, countdown := from.countdown, status := from.status)
  }

  function SyncList(cells: seq<Cell>, from: u16, to: u16): seq<Cell> {
    var i, j := FindList(cells, from), FindList(cells, to);
    if i == -1 || j == -1 then cells else cells[j := Synced(cells[i], cells[j])]
  }

  /** The first cell at `to` takes over the timing of the first cell at `from`; its place and its characters
      stay, and so does every other cell. */
  lemma SyncIs(cells: seq<Cell>, from: u16, to: u16, i: nat, j: nat)
    requires i < |cells| && cells[i].location == from && forall k :: 0 <= k < i ==> cells[k].location != from
    requires j < |cells| && cells[j].location == to && forall k :: 0 <= k < j ==> cells[k].location != to
    ensures var r := SyncList(cells, from, to);
            && |r| == |cells| && (forall k :: 0 <= k < |cells| && k != j ==> r[k] == cells[k])
            && r[j] == Cell(to, cells[j].onChar, cells[j].offChar, cells[i].onLength, cells[i].offLength,
                            cells[i].countdown, cells[i].status)
  {
    FoundFirst(cells, from, i);
    FoundFirst(cells, to, j);
  }

  /** Without either cell nothing happens. */
  lemma SyncNone(cells: seq<Cell>, from: u16, to: u16)
    requires (forall k :: 0 <= k < |cells| ==> cells[k].location != from)
             || (forall k :: 0 <= k < |cells| ==> cells[k].location != to)
    ensures SyncList(cells, from, to) == cells
  {
  }

  /** A countdown of 2 to 32768 goes down by one.  Any other expires: the cell changes from on to off or
      back, and the countdown starts again from the length of what it shows now. */
  lemma TickIs(c: Cell)
    ensures var r := TickCell(c);
            && r.location == c.location && r.onChar == c.onChar && r.offChar == c.offChar
            && r.onLength == c.onLength && r.offLength == c.offLength
            && if 2 <= c.countdown <= 32768 then r.countdown == c.countdown - 1 && r.status == c.status
               else
                 && r.status / 2 == c.status / 2 && r.status % 2 == 1 - c.status % 2
                 && r.countdown == if c.status % 2 == 1 then c.offLength else c.onLength
  {
  }

  /** Cell i has a place on the screen at byte `at`, and expires at the next tick. */
  ghost predicate Changes(cells: seq<Cell>, i: int, at: nat) {
    0 <= i < |cells| && 2 * cells[i].location == at && !(2 <= cells[i].countdown <= 32768)
  }

  /** A tick leaves a place alone where no cell expires. */
  lemma {:induction false} TickLeaves(cells: seq<Cell>, screen: seq<byte>, at: nat)
    requires |screen| == PAGE_BYTES && OnScreen(cells) && at < 4096
    requires forall k :: !Changes(cells, k, at)
    ensures TickScreen(cells, screen)[at] == screen[at]
    decreases |cells|
  {
    if cells != [] {
      var n := |cells| - 1;
      hide TickCell, Expires, Shown;
      assert forall k :: Changes(cells[..n], k, at) ==> Changes(cells, k, at);
      TickLeaves(cells[..n], screen, at);
      LastTick(cells[n]);
      assert !Changes(cells, n, at);
    }
  }

  /** Where some do, it leaves the new character of the last on the list. */
  lemma {:induction false} TickShows(cells: seq<Cell>, screen: seq<byte>, at: nat, i: nat)
    requires |screen| == PAGE_BYTES && OnScreen(cells) && at < 4096
    requires Changes(cells, i, at) && forall k :: i < k ==> !Changes(cells, k, at)
    ensures TickScreen(cells, screen)[at] == if cells[i].status % 2 == 1 then cells[i].offChar else cells[i].onChar
    decreases |cells|
  {
    var n := |cells| - 1;
    hide TickCell, Expires, Shown;
    LastTick(cells[n]);
    if i < n {
      assert forall k :: Changes(cells[..n], k, at) ==> Changes(cells, k, at);
      assert Changes(cells[..n], i, at) && !Changes(cells, n, at);
      TickShows(cells[..n], screen, at, i);
    }
  }

  lemma LastTick(c: Cell)
    ensures Expires(c) <==> !(2 <= c.countdown <= 32768)
    ensures Expires(c) ==> Shown(TickCell(c)) == if c.status % 2 == 1 then c.offChar else c.onChar
  {
  }

  /** A sync draws the off character at once.  That is what the synced cell shows exactly when the
      cell it follows is off or its own two characters are the same. */
  lemma SyncShowsOff(cells: seq<Cell>, from: u16, to: u16)
    requires FindList(cells, from) != -1 && FindList(cells, to) != -1
    ensures var i, j := FindList(cells, from), FindList(cells, to);
            cells[j].offChar == Shown(SyncList(cells, from, to)[j])
            <==> cells[i].status % 2 == 0 || cells[j].onChar == cells[j].offChar
  {
  }

  /** Syncing a cell to one that is on draws the wrong character. */
  lemma SyncDrawsWrong()
    ensures var first, second := Cell(1, 65, 66, 5, 5, 5, 1), Cell(2, 67, 68, 5, 5, 5, 1);
            var synced := SyncList([first, second], 1, 2);
            second.offChar == 68 && Shown(synced[1]) == 67
  {
    var first, second := Cell(1, 65, 66, 5, 5, 5, 1), Cell(2, 67, 68, 5, 5, 5, 1);
    FoundFirst([first, second], 1, 0);
    FoundFirst([first, second], 2, 1);
  }

  // ----- The list in the pool -----

  /** The i-th node of the chain points to the next one, the last to nothing. */
  ghost predicate Link(h: Heap, chain: seq<nat>, i: nat)
    requires |h.pool| == CELLS && i < |chain| && chain[i] < CELLS
  {
    h.pool[chain[i]].next == if i + 1 < |chain| then chain[i + 1] else NULL
  }

  /** `chain` is the pool indices met by following NEXT from the head; it ends, and meets nothing twice. */
  ghost predicate Linked(h: Heap, chain: seq<nat>) {
    && |h.pool| == CELLS
    && h.head == (if chain == [] then NULL else chain[0])
    && (forall i :: 0 <= i < |chain| ==> chain[i] < CELLS)
    && (forall i :: 0 <= i < |chain| ==> Link(h, chain, i))
    && Distinct(chain)
  }

  /** The pool and the list agree: the list visits exactly the nodes that the allocator takes to be used. */
  ghost predicate Agree(h: Heap, chain: seq<nat>) {
    && Linked(h, chain)
    && (forall slot: nat :: slot < CELLS ==> (h.pool[slot].cell.location != 0 <==> slot in chain))
    && (forall slot: nat :: slot < CELLS ==> h.pool[slot].cell.location < CELLS)
  }

  ghost function Cells(h: Heap, chain: seq<nat>): (cells: seq<Cell>)
    requires Linked(h, chain)
    ensures |cells| == |chain|
  {
    seq(|chain|, i requires 0 <= i < |chain| => h.pool[chain[i]].cell)
  }

  /** `mp1_malloc`: the first node with location 0; 2000 when there is none. */
  function Malloc(pool: seq<Node>, i: nat := 0): (slot: nat)
    requires i <= |pool|
    ensures i <= slot <= |pool|
    ensures forall j :: i <= j < slot ==> pool[j].cell.location != 0
    ensures slot < |pool| ==> pool[slot].cell.location == 0
    decreases |pool| - i
  {
    if i == |pool| || pool[i].cell.location == 0 then i else Malloc(pool, i + 1)
  }

  predicate Accepts(h: Heap, user: Cell) {
    user.location < CELLS && Malloc(h.pool) < |h.pool|
  }

  function AddHeap(h: Heap, user: Cell): Heap {
    if !Accepts(h, user) then h
    else Heap(h.pool[Malloc(h.pool) := Node(Started(user), h.head)], Malloc(h.pool))
  }

  lemma {:induction false} DistinctSize(chain: seq<nat>, n: nat)
    requires forall i :: 0 <= i < |chain| ==> chain[i] < n
    requires Distinct(chain)
    ensures |chain| <= n
    ensures |chain| == n <==> forall k: nat :: k < n ==> k in chain
    decreases n
  {
    if chain == [] {
      assert n > 0 ==> n - 1 !in chain;
      return;
    }
    assert chain[0] < n;
    if n - 1 in chain {
      var i :| 0 <= i < |chain| && chain[i] == n - 1;
      var rest := chain[..i] + chain[i + 1..];
      assert forall k: nat :: k != n - 1 ==> (k in rest <==> k in chain);
      DistinctSize(rest, n - 1);
    } else {
      DistinctSize(chain, n - 1);
    }
  }

  lemma PrependLinked(h: Heap, chain: seq<nat>, slot: nat, node: Node)
    requires Linked(h, chain) && slot < CELLS && slot !in chain && node.next == h.head
    ensures var h' := Heap(h.pool[slot := node], slot);
            Linked(h', [slot] + chain) && Cells(h', [slot] + chain) == [node.cell] + Cells(h, chain)
  {
    var h', chain' := Heap(h.pool[slot := node], slot), [slot] + chain;
    forall i | 0 < i < |chain'| ensures chain'[i] == chain[i - 1] && h'.pool[chain'[i]] == h.pool[chain[i - 1]] {
      assert chain[i - 1] in chain;
    }
    forall i | 0 <= i < |chain'| ensures Link(h', chain', i) {
      assert i > 0 ==> Link(h, chain, i - 1);
    }
    assert Distinct(chain') by {
      assert Distinct(chain);
    }
  }

  lemma Prepend(h: Heap, chain: seq<nat>, user: Cell)
    requires Agree(h, chain) && Accepts(h, user) && user.location != 0
    ensures Agree(AddHeap(h, user), [Malloc(h.pool)] + chain)
    ensures Cells(AddHeap(h, user), [Malloc(h.pool)] + chain) == [Started(user)] + Cells(h, chain)
  {
    assert |h.pool| == CELLS;
    hide Linked, Cells;
    var slot := Malloc(h.pool);
    assert slot !in chain;
    PrependLinked(h, chain, slot, Node(Started(user), h.head));
    assert forall k: nat :: k in [slot] + chain <==> k == slot || k in chain;
  }

  /** Adding keeps the pool and the list in agreement exactly when it is refused or the location is
      not 0; then it prepends, and it is refused only for a location off the screen or a full pool. */
  lemma AddAgrees(h: Heap, chain: seq<nat>, user: Cell)
    requires Agree(h, chain)
    ensures Accepts(h, user) <==> user.location < CELLS && |chain| < CELLS
    ensures user.location != 0 || !Accepts(h, user) <==> exists chain' :: Agree(AddHeap(h, user), chain')
    ensures user.location != 0 && Accepts(h, user) ==>
              && Agree(AddHeap(h, user), [Malloc(h.pool)] + chain)
              && Cells(AddHeap(h, user), [Malloc(h.pool)] + chain) == AddList(Cells(h, chain), user)
  {
    var slot, h' := Malloc(h.pool), AddHeap(h, user);
    DistinctSize(chain, CELLS);
    if Accepts(h, user) {
      if user.location == 0 {
        forall chain' | Linked(h', chain') ensures !Agree(h', chain') {
          assert slot == chain'[0] && slot in chain';
        }
      } else {
        Prepend(h, chain, user);
      }
    }
  }

  lemma SecondNode(h: Heap, chain: seq<nat>)
    requires Linked(h, chain) && chain != []
    ensures h.pool[chain[0]].next == if |chain| > 1 then chain[1] else NULL
  {
    assert Link(h, chain, 0);
  }

  /** Two adds at location 0 use the same node twice, and the list runs in a circle. */
  lemma ZeroTwice(h: Heap, user: Cell)
    requires Agree(h, []) && user.location == 0
    ensures forall chain :: !Linked(AddHeap(AddHeap(h, user), user), chain)
  {
    var h1 := AddHeap(h, user);
    var h2 := AddHeap(h1, user);
    assert Malloc(h.pool) == 0 && Malloc(h1.pool) == 0;
    assert h2.head == 0 && h2.pool[0].next == 0;
    forall chain ensures !Linked(h2, chain) {
      if Linked(h2, chain) && chain != [] {
        SecondNode(h2, chain);
      }
    }
  }

  /** The list is determined by the heap. */
  lemma {:induction false} LinkedOnce(h: Heap, c1: seq<nat>, c2: seq<nat>, n: nat)
    requires Linked(h, c1) && Linked(h, c2) && n <= |c1|
    ensures n <= |c2| && c1[..n] == c2[..n]
    decreases n
  {
    if n > 0 {
      LinkedOnce(h, c1, c2, n - 1);
      assert c1[..n] == c1[..n - 1] + [c1[n - 1]];
      if n > 1 {
        assert c1[n - 2] == c1[..n - 1][n - 2] == c2[n - 2];
        assert Link(h, c1, n - 2) && Link(h, c2, n - 2);
      }
    }
  }

  // ----- The engine, in place -----

  class Engine {
    const pool: array<Node>
    const vmem: array<byte>
    var head: int
    ghost var chain: seq<nat>

    /** The memory is there; nothing is said about the list. */
    ghost predicate Shaped()
      reads this, pool, vmem
    {
      pool.Length == CELLS && vmem.Length == PAGE_BYTES
    }

    ghost function Memory(): Heap
      reads this, pool
    {
      Heap(pool[..], head)
    }

    ghost predicate Valid()
      reads this, pool, vmem
      ensures Valid() ==> Shaped()
    {
      Shaped() && Agree(Memory(), chain)
    }

    ghost function List(): (cells: seq<Cell>)
      requires Valid()
      reads this, pool, vmem
      ensures OnScreen(cells) && |cells| == |chain|
    {
      AgreeOnScreen(Memory(), chain);
      Cells(Memory(), chain)
    }

    /** `main` clears the pool before anything else. */
    constructor (screen: seq<byte>)
      requires |screen| == PAGE_BYTES
      ensures Valid() && List() == [] && vmem[..] == screen && fresh(pool) && fresh(vmem)
    {
      pool := new Node[CELLS](_ => FREE);
      vmem := new byte[PAGE_BYTES](i requires 0 <= i < PAGE_BYTES => screen[i]);
      head := NULL;
      chain := [];
    }

    method PokeVideo(location: nat, b: byte)
      requires Shaped() && location < CELLS
      modifies vmem
      ensures vmem[..] == Poke(old(vmem[..]), location, b)
    {
      vmem[2 * location] := b;
    }

    method Allocate() returns (slot: int)
      requires Shaped()
      ensures slot == if Malloc(pool[..]) == CELLS then NULL else Malloc(pool[..])
    {
      for i := 0 to CELLS
        invariant Malloc(pool[..]) == Malloc(pool[..], i)
      {
        if pool[i].cell.location == 0 {
          return i;
        }
      }
      return NULL;
    }

    /** `mp1_ioctl_add`.  It walks no list, so it needs none. */
    method Add(user: Cell) returns (r: int)
      requires Shaped()
      modifies this, pool, vmem
      ensures Shaped() && Memory() == AddHeap(old(Memory()), user)
      ensures r == if Accepts(old(Memory()), user) then 0 else -1
      ensures vmem[..] == if r == 0 then Poke(old(vmem[..]), user.location, user.onChar) else old(vmem[..])
      ensures old(Valid()) && user.location != 0 ==>
                && Valid() && List() == AddList(old(List()), user)
                && (r == 0 <==> user.location < CELLS && |old(List())| < CELLS)
    {
      ghost var before := Memory();
      if user.location >= CELLS {
        return -1;
      }
      var temp := Started(user);
      var slot := Allocate();
      if slot == NULL {
        if Agree(before, chain) { AddAgrees(before, chain, user); }
        return -1;
      }
      pool[slot] := Node(temp, head);
      head := slot;
      PokeVideo(user.location, user.onChar);
      if Agree(before, chain) {
        AddAgrees(before, chain, user);
        chain := [slot] + chain;
      }
      return 0;
    }

    /** `mp1_find_helper`, and where in the list the node it finds is. */
    method FindHelper(location: u16) returns (p: int, ghost i: int)
      requires Valid()
      ensures i == FindList(List(), location)
      ensures p == if FindList(List(), location) == -1 then NULL else chain[FindList(List(), location)]
    {
      p := head;
      i := 0;
      while p != NULL
        invariant 0 <= i <= |chain| && p == if i < |chain| then chain[i] else NULL
        invariant forall j :: 0 <= j < i ==> List()[j].location != location
        decreases |chain| - i
      {
        assert Link(Memory(), chain, i);
        if pool[p].cell.location == location {
          FoundFirst(List(), location, i);
          return;
        }
        p := pool[p].next;
        i := i + 1;
      }
      i := -1;
    }

    /** `mp1_ioctl_find` */
    method Find(location: u16) returns (r: int, found: Cell)
      requires Valid()
      ensures r == if FindList(List(), location) == -1 then -1 else 0
      ensures r == 0 ==> found == List()[FindList(List(), location)]
    {
      var p, i := FindHelper(location);
      found := FREE.cell;
      if p == NULL {
        return -1, found;
      }
      return 0, pool[p].cell;
    }

    /** `mp1_ioctl_sync`; the character it draws at once is always the off character. */
    method Sync(from: u16, to: u16) returns (r: int)
      requires Valid()
      modifies pool, vmem
      ensures Valid() && List() == SyncList(old(List()), from, to)
      ensures var i, j := FindList(old(List()), from), FindList(old(List()), to);
              && r == (if i == -1 || j == -1 then -1 else 0)
              && vmem[..] == if r == 0 then Poke(old(vmem[..]), to, old(List())[j].offChar) else old(vmem[..])
    {
      var p, i := FindHelper(from);
      if p == NULL {
        return -1;
      }
      var q, j := FindHelper(to);
      if q == NULL {
        return -1;
      }
      ghost var before := Memory();
      pool[q] := Node(Synced(pool[p].cell, pool[q].cell), pool[q].next);
      SetCell(before, chain, j, Synced(before.pool[p].cell, before.pool[q].cell));
      PokeVideo(pool[q].cell.location, pool[q].cell.offChar);
      return 0;
    }

    /** The loop of `mp1_ioctl_remove`: the node whose NEXT field points to p, or NULL for the head. */
    method FindLink(p: int, ghost i: nat) returns (link: int)
      requires Valid() && i < |chain| && p == chain[i]
      ensures link == if i == 0 then NULL else chain[i - 1]
    {
      hide Cells;
      link := NULL;
      var at := head;
      ghost var j := 0;
      while at != p
        invariant 0 <= j <= i && at == chain[j] && link == if j == 0 then NULL else chain[j - 1]
        decreases i - j
      {
        assert Link(Memory(), chain, j);
        link := at;
        at := pool[at].next;
        j := j + 1;
      }
    }

    /** `mp1_ioctl_remove` */
    method Remove(location: u16) returns (r: int)
      requires Valid()
      modifies this, pool
      ensures Valid() && List() == RemoveList(old(List()), location)
      ensures r == if FindList(old(List()), location) == -1 then -1 else 0
      ensures forall i :: FirstAt(old(List()), location, i) ==>
                r == 0 && List() == old(List())[..i] + old(List())[i + 1..]
      ensures (forall i :: !FirstAt(old(List()), location, i)) ==> r == -1 && List() == old(List())
    {
      RemoveIs(List(), location);
      hide Agree, Cells, Unlinked, FirstAt, RemoveList;
      var p, i := FindHelper(location);
      RemoveFound(List(), location, i);
      if p == NULL {
        return -1;
      }
      RemoveNode(p, i);
      return 0;
    }

    /** The part of `mp1_ioctl_remove` behind the search. */
    method RemoveNode(p: int, ghost i: nat)
      requires Valid() && i < |chain| && p == chain[i]
      modifies this, pool
      ensures Valid() && List() == old(List())[..i] + old(List())[i + 1..]
    {
      var link := FindLink(p, i);
      hide Agree, Cells, Unlinked;
      ghost var h := Memory();
      Unlink(h, chain, i);
      TakeOut(p, link, i);
      chain := chain[..i] + chain[i + 1..];
    }

    /** Take a node out of the list and free it. */
    method TakeOut(p: int, link: int, ghost i: nat)
      requires Valid() && i < |chain| && p == chain[i] && link == if i == 0 then NULL else chain[i - 1]
      modifies `head, pool
      ensures pool.Length == CELLS && Linked(old(Memory()), chain) && Memory() == Unlinked(old(Memory()), chain, i)
    {
      hide Distinct, Link;
      if link == NULL {
        head := pool[p].next;
      } else {
        pool[link] := pool[link].(next := pool[p].next);
      }
      pool[p] := FREE;
    }

    /** One node's turn in `mp1_rtc_tasklet`. */
    method TickNode(p: int, ghost i: nat)
      requires Valid() && i < |chain| && p == chain[i]
      modifies pool, vmem
      ensures Valid() && pool[p].next == old(pool[p].next)
      ensures List() == old(List())[i := TickCell(old(List())[i])]
      ensures var c := old(List())[i];
              vmem[..] == if Expires(c) then Poke(old(vmem[..]), c.location, Shown(TickCell(c))) else old(vmem[..])
    {
      hide Linked;
      ghost var h := Memory();
      ChainAt(h, chain, i);
      var c := pool[p].cell;
      assert c == List()[i];
      var left := (c.countdown - 1) % 0x1_0000;
      if 0 < left < 0x8000 {
        c := c.(countdown := left);
      } else if c.status % 2 == 1 {
        PokeVideo(c.location, c.offChar);
        c := c.(countdown := c.offLength, status := c.status - 1);
      } else {
        PokeVideo(c.location, c.onChar);
        c := c.(countdown := c.onLength, status := c.status + 1);
      }
      pool[p] := Node(c, pool[p].next);
      SetCell(h, chain, i, c);
    }

    /** `mp1_rtc_tasklet` */
    method Tick()
      requires Valid()
      modifies pool, vmem
      ensures Valid() && List() == TickList(old(List())) && vmem[..] == TickScreen(old(List()), old(vmem[..]))
    {
      hide Agree, Cells, TickCell, Expires, TickList, TickScreen;
      var p := head;
      ghost var i, before := 0, List();
      HeadIs(Memory(), chain);
      TickNone(before, old(vmem[..]));
      while p != NULL
        invariant Valid() && 0 <= i <= |chain| && p == if i < |chain| then chain[i] else NULL
        invariant List() == TickList(before[..i]) + before[i..]
        invariant vmem[..] == TickScreen(before[..i], old(vmem[..]))
        decreases |chain| - i
      {
        NextIs(Memory(), chain, i);
        TickSplit(before, i, old(vmem[..]));
        TickNode(p, i);
        p := pool[p].next;
        i := i + 1;
      }
      assert before[..i] == before && TickList(before) + [] == TickList(before);
    }
  }

  lemma ChainAt(h: Heap, chain: seq<nat>, i: nat)
    requires Agree(h, chain) && i < |chain|
    ensures chain[i] < |h.pool| == CELLS && 0 < h.pool[chain[i]].cell.location < CELLS
  {
    assert chain[i] in chain;
  }

  lemma TickNone(cells: seq<Cell>, screen: seq<byte>)
    requires |screen| == PAGE_BYTES
    ensures TickList(cells[..0]) + cells[0..] == cells && TickScreen(cells[..0], screen) == screen
  {
  }

  /** One more node's turn. */
  lemma TickSplit(cells: seq<Cell>, i: nat, screen: seq<byte>)
    requires i < |cells| && OnScreen(cells) && |screen| == PAGE_BYTES
    ensures var so := TickList(cells[..i]) + cells[i..];
            && |so| == |cells| && so[i] == cells[i]
            && so[i := TickCell(cells[i])] == TickList(cells[..i + 1]) + cells[i + 1..]
    ensures var before, c := TickScreen(cells[..i], screen), cells[i];
            TickScreen(cells[..i + 1], screen)
            == if Expires(c) then Poke(before, c.location, Shown(TickCell(c))) else before
  {
    hide TickList, TickScreen, TickCell, Expires;
    TickListSplit(cells, i);
    TickScreenSplit(cells, i, screen);
  }

  lemma TickListSplit(cells: seq<Cell>, i: nat)
    requires i < |cells|
    ensures var so := TickList(cells[..i]) + cells[i..];
            && |so| == |cells| && so[i] == cells[i]
            && so[i := TickCell(cells[i])] == TickList(cells[..i + 1]) + cells[i + 1..]
  {
    hide TickCell;
    assert TickList(cells[..i + 1]) == TickList(cells[..i]) + [TickCell(cells[i])];
  }

  lemma TickScreenSplit(cells: seq<Cell>, i: nat, screen: seq<byte>)
    requires i < |cells| && OnScreen(cells) && |screen| == PAGE_BYTES
    ensures var before, c := TickScreen(cells[..i], screen), cells[i];
            TickScreen(cells[..i + 1], screen)
            == if Expires(c) then Poke(before, c.location, Shown(TickCell(c))) else before
  {
    hide TickCell, Expires, Poke, Shown;
    assert cells[..i + 1][..i] == cells[..i];
  }

  lemma HeadIs(h: Heap, chain: seq<nat>)
    requires Agree(h, chain)
    ensures h.head == if 0 < |chain| then chain[0] else NULL
  {
  }

  lemma NextIs(h: Heap, chain: seq<nat>, i: nat)
    requires Agree(h, chain) && i < |chain|
    ensures |h.pool| == CELLS && chain[i] < CELLS
    ensures h.pool[chain[i]].next == if i + 1 < |chain| then chain[i + 1] else NULL
  {
    assert Link(h, chain, i);
  }

  lemma DistinctWithout(chain: seq<nat>, i: nat)
    requires Distinct(chain) && i < |chain|
    ensures Distinct(chain[..i] + chain[i + 1..])
  {
    var chain' := chain[..i] + chain[i + 1..];
    assert forall j :: 0 <= j < |chain'| ==> chain'[j] == chain[if j < i then j else j + 1];
  }

  lemma UnlinkLinked(h: Heap, chain: seq<nat>, i: nat, chain': seq<nat>)
    requires Linked(h, chain) && i < |chain| && chain' == chain[..i] + chain[i + 1..]
    ensures Linked(Unlinked(h, chain, i), chain')
    ensures Cells(Unlinked(h, chain, i), chain') == Cells(h, chain)[..i] + Cells(h, chain)[i + 1..]
  {
    hide Link, Distinct;
    var h' := Unlinked(h, chain, i);
    DistinctWithout(chain, i);
    SecondNode(h, chain);
    forall j | 0 <= j < |chain'|
      ensures chain'[j] < CELLS && Link(h', chain', j) && h'.pool[chain'[j]].cell == h.pool[chain'[j]].cell
    {
      UnlinkAt(h, chain, i, chain', j);
    }
    assert Linked(h', chain');
    var cells, cells' := Cells(h, chain), Cells(h', chain');
    forall j | 0 <= j < |chain'| ensures cells'[j] == (cells[..i] + cells[i + 1..])[j] {
      assert cells'[j] == h.pool[chain'[j]].cell && chain'[j] == chain[if j < i then j else j + 1];
    }
  }

  lemma UnlinkAt(h: Heap, chain: seq<nat>, i: nat, chain': seq<nat>, j: nat)
    requires Linked(h, chain) && i < |chain| && chain' == chain[..i] + chain[i + 1..] && j < |chain'|
    ensures var h' := Unlinked(h, chain, i);
            chain'[j] < CELLS && Link(h', chain', j) && h'.pool[chain'[j]].cell == h.pool[chain'[j]].cell
  {
    var k := if j < i then j else j + 1;
    assert Link(h, chain, i) && Link(h, chain, k);
    assert chain'[j] == chain[k] && chain[k] != chain[i];
    assert j + 1 < |chain'| ==> chain'[j + 1] == chain[if j + 1 < i then j + 1 else j + 2];
    assert i > 0 && k != i - 1 ==> chain[k] != chain[i - 1];
  }

  /** Taking the i-th node out of the list and clearing it. */
  lemma Unlink(h: Heap, chain: seq<nat>, i: nat)
    requires Agree(h, chain) && i < |chain|
    ensures Agree(Unlinked(h, chain, i), chain[..i] + chain[i + 1..])
    ensures Cells(Unlinked(h, chain, i), chain[..i] + chain[i + 1..]) == Cells(h, chain)[..i] + Cells(h, chain)[i + 1..]
  {
    var h', chain' := Unlinked(h, chain, i), chain[..i] + chain[i + 1..];
    UnlinkLinked(h, chain, i, chain');
    hide Linked, Cells;
    forall slot: nat ensures slot in chain' <==> slot in chain && slot != chain[i] {
      Without(chain, i, slot);
    }
  }

  lemma Without(chain: seq<nat>, i: nat, slot: nat)
    requires Distinct(chain) && i < |chain|
    ensures slot in chain[..i] + chain[i + 1..] <==> slot in chain && slot != chain[i]
  {
    if slot in chain && slot != chain[i] {
      var k :| 0 <= k < |chain| && chain[k] == slot;
      assert (chain[..i] + chain[i + 1..])[if k < i then k else k - 1] == slot;
    }
  }

  ghost function Unlinked(h: Heap, chain: seq<nat>, i: nat): Heap
    requires Linked(h, chain) && i < |chain|
  {
    var next := h.pool[chain[i]].next;
    if i == 0 then Heap(h.pool[chain[i] := FREE], next)
    else Heap(h.pool[chain[i - 1] := h.pool[chain[i - 1]].(next := next)][chain[i] := FREE], h.head)
  }

  lemma AgreeOnScreen(h: Heap, chain: seq<nat>)
    requires Agree(h, chain)
    ensures OnScreen(Cells(h, chain))
  {
    assert forall i :: 0 <= i < |chain| ==> chain[i] in chain;
  }

  /** Writing one node's cell, at the same location, changes that place of the list. */
  lemma SetCell(h: Heap, chain: seq<nat>, i: nat, c: Cell)
    requires Agree(h, chain) && i < |chain| && c.location == h.pool[chain[i]].cell.location
    ensures var h' := h.(pool := h.pool[chain[i] := Node(c, h.pool[chain[i]].next)]);
            Agree(h', chain) && Cells(h', chain) == Cells(h, chain)[i := c]
  {
    var h' := h.(pool := h.pool[chain[i] := Node(c, h.pool[chain[i]].next)]);
    forall j | 0 <= j < |chain| ensures Link(h', chain, j) {
      assert Link(h, chain, j);
    }
  }
}
