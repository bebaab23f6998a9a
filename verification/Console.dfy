/**
 The kernel's process table and its three text consoles, as a state machine over values.

 The kernel keeps one VGA page, three backing pages, a table of parent links and, for each
 terminal, a saved cursor and a current program.  `Step` follows the code.  `Desk` is what the
 user is promised: three consoles that know nothing of each other, each with its own stack of
 programs, its own screen and its own cursor.  `RunRefines` shows that the kernel is the desk.
 */
module Console {
  import opened Bytes
  import opened Basics

  const PAGE_BYTES := 4096
  const SCREEN_BYTES := 4000
  const ATTRIB: byte := 7
  const TERMINALS := 3
  const PROGRAMS := 6
  const MB_8 := 0x80_0000
  const KB_8 := 0x2000
  const PREV := 4

  /** A physical page that a program's video page entry can name. */
  datatype Page = Vga | Backing(term: nat)

  datatype Terminal = Terminal(x: int, y: int, cr3: nat, kernelEsp: int, programId: int, active: bool)

  /** `cr3` is the program whose page directory is loaded (0 for the kernel's own), and `inForce`
      the video mapping that was read when it was loaded. */
  datatype State = State(
    openTasks: seq<int>,
    terminals: seq<Terminal>,
    oldTerminal: int,
    newTerminalFlag: bool,
    cr3: nat,
    inForce: Page,
    videoEntry: seq<Page>,
    esp0: int,
    screenX: int,
    screenY: int,
    vga: seq<byte>,
    backing: seq<seq<byte>>)

  ghost predicate Shaped(s: State) {
    && |s.openTasks| == PROGRAMS + 1
    && |s.terminals| == TERMINALS
    && 0 <= s.oldTerminal < TERMINALS
    && s.cr3 <= PROGRAMS
    && |s.videoEntry| == PROGRAMS + 1
    && (forall p :: 0 <= p <= PROGRAMS ==> GoodPage(s.videoEntry[p]))
    && GoodPage(s.inForce)
    && |s.vga| == PAGE_BYTES
    && |s.backing| == TERMINALS
    && (forall t :: 0 <= t < TERMINALS ==> |s.backing[t]| == PAGE_BYTES)
  }

  predicate GoodPage(p: Page) {
    p.Backing? ==> p.term < TERMINALS
  }

  // ----- What the code does -----

  /** The page that virtual address 0xB8000 reaches. */
  function Video(s: State): (page: seq<byte>)
    requires Shaped(s)
    ensures |page| == PAGE_BYTES
  {
    if s.inForce.Vga? then s.vga else s.backing[s.inForce.term]
  }

  function SetVideo(s: State, page: seq<byte>): (r: State)
    requires Shaped(s) && |page| == PAGE_BYTES
    ensures Shaped(r)
  {
    if s.inForce.Vga? then s.(vga := page) else s.(backing := s.backing[s.inForce.term := page])
  }

  /** `clear`: the 2000 cells become blanks; the 96 bytes behind them stay. */
  function Cleared(page: seq<byte>): (r: seq<byte>)
    requires |page| == PAGE_BYTES
    ensures |r| == PAGE_BYTES
  {
    seq(PAGE_BYTES, i requires 0 <= i < PAGE_BYTES =>
      if i >= SCREEN_BYTES then page[i] else if i % 2 == 0 then SPACE else ATTRIB)
  }

  function LoadCr3(s: State, program: nat): State
    requires Shaped(s) && program <= PROGRAMS
  {
    s.(cr3 := program, inForce := s.videoEntry[program])
  }

  function KernelStackTop(program: int): int {
    MB_8 - KB_8 * (program - 1) - PREV
  }

  /** `video_mapping` and `non_video_mapping`: only programs 1..6 have an entry to change. */
  function MapVideo(entries: seq<Page>, program: int, page: Page): seq<Page>
    requires |entries| == PROGRAMS + 1
  {
    if 1 <= program <= PROGRAMS then entries[program := page] else entries
  }

  /** The lowest free slot at or after `i`; 7 when there is none. */
  function FirstFree(openTasks: seq<int>, i: nat): (slot: nat)
    requires |openTasks| == PROGRAMS + 1 && 1 <= i <= PROGRAMS + 1
    ensures i <= slot <= PROGRAMS + 1
    ensures forall p :: i <= p < slot ==> openTasks[p] != -1
    ensures slot <= PROGRAMS ==> openTasks[slot] == -1
    decreases PROGRAMS + 1 - i
  {
    if i == PROGRAMS + 1 || openTasks[i] == -1 then i else FirstFree(openTasks, i + 1)
  }

  predicate HasFreeSlot(openTasks: seq<int>) {
    |openTasks| == PROGRAMS + 1 && FirstFree(openTasks, 1) <= PROGRAMS
  }

  function FindTerminal(terminals: seq<Terminal>, program: int): (t: int)
    requires |terminals| == TERMINALS
    ensures t == -1 ==> forall u :: 0 <= u < TERMINALS ==> terminals[u].programId != program
    ensures t != -1 ==> 0 <= t < TERMINALS && terminals[t].programId == program
                        && forall u :: 0 <= u < t ==> terminals[u].programId != program
  {
    if terminals[0].programId == program then 0
    else if terminals[1].programId == program then 1
    else if terminals[2].programId == program then 2
    else -1
  }

  function SetProgram(s: State, program: int): State
    requires Shaped(s)
  {
    s.(terminals := s.terminals[s.oldTerminal := s.terminals[s.oldTerminal].(programId := program)])
  }

  /** `execute` on a command that names a loadable program. */
  function Execute(s: State): State
    requires Shaped(s) && HasFreeSlot(s.openTasks)
  {
    var slot := FirstFree(s.openTasks, 1);
    var parent := if s.newTerminalFlag then 0 else s.cr3;
    var linked := s.(openTasks := s.openTasks[slot := parent], newTerminalFlag := false);
    LoadCr3(SetProgram(linked, slot), slot).(esp0 := KernelStackTop(slot))
  }

  /** `halt`: a program without a parent is started again in place. */
  function Halt(s: State): State
    requires Shaped(s) && 0 <= s.openTasks[s.cr3] <= PROGRAMS
  {
    var parent := s.openTasks[s.cr3];
    if parent == 0 then s
    else
      LoadCr3(SetProgram(s, parent), parent).(
        openTasks := s.openTasks[s.cr3 := -1],
        esp0 := KernelStackTop(parent))
  }

  function SaveTerminal(s: State): (r: State)
    requires Shaped(s)
    ensures Shaped(r)
  {
    var t := s.oldTerminal;
    var saved := s.terminals[t].(cr3 := s.cr3, kernelEsp := s.esp0, programId := s.cr3, x := s.screenX, y := s.screenY);
    s.(terminals := s.terminals[t := saved],
       backing := s.backing[t := Video(s)],
       videoEntry := MapVideo(s.videoEntry, s.cr3, Backing(t)))
  }

  ghost predicate CanSwitch(s: State, t: int) {
    Shaped(s) && (0 <= t < TERMINALS && t != s.oldTerminal ==>
      if s.terminals[t].active then s.terminals[t].cr3 <= PROGRAMS else HasFreeSlot(s.openTasks))
  }

  function Switch(s: State, t: int): State
    requires CanSwitch(s, t)
  {
    if t < 0 || t > 2 || s.oldTerminal == t then s
    else
      var left := SaveTerminal(s).(oldTerminal := t);
      var blank := SetVideo(left, Cleared(Video(left)));
      if !s.terminals[t].active then
        Execute(blank.(
          terminals := blank.terminals[t := blank.terminals[t].(active := true)],
          newTerminalFlag := true))
      else
        var to := s.terminals[t];
        var mapped := blank.(
          videoEntry := MapVideo(blank.videoEntry, to.programId, Vga),
          screenX := to.x, screenY := to.y);
        var back := LoadCr3(mapped, to.cr3);
        SetVideo(back, back.backing[t]).(esp0 := KernelStackTop(to.programId))
  }

  datatype Event =
    | Put(offset: nat, b: byte)        // a store through the video page, by a program or by the kernel
    | MoveCursor(x: int, y: int)
    | Exec(loadable: bool)             // `execute`; it returns -1 early unless the file is a program
    | Exit                             // `halt`
    | Select(term: int)                // `terminal_switch`

  ghost predicate Possible(s: State, e: Event) {
    Shaped(s) &&
    match e
    case Put(offset, _) => offset < PAGE_BYTES
    case MoveCursor(_, _) => true
    case Exec(loadable) => loadable ==> HasFreeSlot(s.openTasks)
    case Exit => 0 <= s.openTasks[s.cr3] <= PROGRAMS
    case Select(t) => CanSwitch(s, t)
  }

  function Step(s: State, e: Event): State
    requires Possible(s, e)
  {
    match e
    case Put(offset, b) => SetVideo(s, Video(s)[offset := b])
    case MoveCursor(x, y) => s.(screenX := x, screenY := y)
    case Exec(loadable) => if loadable then Execute(s) else s
    case Exit => Halt(s)
    case Select(t) => Switch(s, t)
  }

  /** `paging_initialize` and `terminal_init`: no program, only the first terminal active. */
  function Reset(page: seq<byte>, backing: seq<seq<byte>>, x: int, y: int): (r: State)
    requires |page| == PAGE_BYTES
    requires |backing| == TERMINALS && forall t :: 0 <= t < TERMINALS ==> |backing[t]| == PAGE_BYTES
    ensures Shaped(r) && HasFreeSlot(r.openTasks)
  {
    State(
      openTasks := seq(PROGRAMS + 1, _ => -1),
      terminals := seq(TERMINALS, t => Terminal(0, 0, 0, 0, 0, t == 0)),
      oldTerminal := 0,
      newTerminalFlag := false,
      cr3 := 0,
      inForce := Vga,
      videoEntry := seq(PROGRAMS + 1, _ => Vga),
      esp0 := MB_8,
      screenX := x,
      screenY := y,
      vga := page,
      backing := backing)
  }

  /** `clear` and the first `execute`. */
  function Start(s: State): State
    requires Shaped(s) && HasFreeSlot(s.openTasks)
  {
    Execute(SetVideo(s, Cleared(Video(s))))
  }

  /** The state when the first shell starts. */
  function Boot(page: seq<byte>, backing: seq<seq<byte>>, x: int, y: int): State
    requires |page| == PAGE_BYTES
    requires |backing| == TERMINALS && forall t :: 0 <= t < TERMINALS ==> |backing[t]| == PAGE_BYTES
  {
    Start(Reset(page, backing, x, y))
  }

  // ----- What the user is promised -----

  /** One console: the programs running in it, the newest last, its screen and its cursor. */
  datatype View = Closed | Open(stack: seq<nat>, screen: seq<byte>, x: int, y: int)

  datatype Desk = Desk(views: seq<View>, front: nat)

  ghost predicate DeskShaped(d: Desk) {
    && |d.views| == TERMINALS
    && d.front < TERMINALS
    && d.views[d.front].Open?
    && forall t :: 0 <= t < TERMINALS && d.views[t].Open? ==>
         |d.views[t].stack| > 0 && |d.views[t].screen| == PAGE_BYTES
  }

  /** The stacks of the three consoles; a closed console runs nothing. */
  function Stacks(d: Desk): (stacks: seq<seq<nat>>)
    requires |d.views| == TERMINALS
    ensures |stacks| == TERMINALS
  {
    seq(TERMINALS, t requires 0 <= t < TERMINALS => if d.views[t].Open? then d.views[t].stack else [])
  }

  ghost predicate Live(stacks: seq<seq<nat>>, p: nat) {
    exists t :: 0 <= t < |stacks| && p in stacks[t]
  }

  /** `slot` is the lowest of 1..6 that no console is using. */
  ghost predicate NextSlot(d: Desk, slot: nat)
    requires |d.views| == TERMINALS
  {
    && 1 <= slot <= PROGRAMS
    && !Live(Stacks(d), slot)
    && forall p :: 1 <= p < slot ==> Live(Stacks(d), p)
  }

  /** What each event may do to the desk.  Nothing here mentions pages, mappings or links. */
  ghost predicate DeskStep(d: Desk, e: Event, d': Desk)
    requires DeskShaped(d)
  {
    var f := d.views[d.front];
    match e
    case Put(offset, b) =>
      offset < PAGE_BYTES && d' == d.(views := d.views[d.front := f.(screen := f.screen[offset := b])])
    case MoveCursor(x, y) =>
      d' == d.(views := d.views[d.front := f.(x := x, y := y)])
    case Exec(loadable) =>
      if !loadable then d' == d
      else exists slot :: NextSlot(d, slot) && d' == d.(views := d.views[d.front := f.(stack := f.stack + [slot])])
    case Exit =>
      if |f.stack| == 1 then d' == d
      else d' == d.(views := d.views[d.front := f.(stack := f.stack[..|f.stack| - 1])])
    case Select(t) =>
      if !(0 <= t < TERMINALS) || t == d.front then d' == d
      else if d.views[t].Open? then d' == d.(front := t)
      else
        exists slot ::
          NextSlot(d, slot) && d' == Desk(d.views[t := Open([slot], Cleared(f.screen), f.x, f.y)], t)
  }

  // ----- The relation between the two -----

  function Top(v: View): nat
    requires v.Open? && |v.stack| > 0
  {
    v.stack[|v.stack| - 1]
  }

  /** The program at place `i` of a stack was started by the one below it, the first by nobody. */
  ghost predicate Link(openTasks: seq<int>, stack: seq<nat>, i: nat)
    requires |openTasks| == PROGRAMS + 1 && i < |stack|
  {
    1 <= stack[i] <= PROGRAMS && openTasks[stack[i]] == if i == 0 then 0 else stack[i - 1]
  }

  ghost predicate Linked(openTasks: seq<int>, stack: seq<nat>)
    requires |openTasks| == PROGRAMS + 1
  {
    forall i :: 0 <= i < |stack| ==> Link(openTasks, stack, i)
  }

  ghost predicate NoneTwice(stacks: seq<seq<nat>>) {
    && (forall t :: 0 <= t < |stacks| ==> Distinct(stacks[t]))
    && (forall t, u, p :: 0 <= t < |stacks| && 0 <= u < |stacks| && p in stacks[t] && p in stacks[u] ==> t == u)
  }

  /** The process table is exactly these stacks. */
  ghost predicate TableAgrees(openTasks: seq<int>, stacks: seq<seq<nat>>) {
    && |openTasks| == PROGRAMS + 1
    && openTasks[0] == -1
    && (forall t :: 0 <= t < |stacks| ==> Linked(openTasks, stacks[t]))
    && NoneTwice(stacks)
    && (forall p :: 1 <= p <= PROGRAMS ==> (openTasks[p] != -1 <==> Live(stacks, p)))
  }

  ghost predicate Behind(d: Desk, t: nat, p: nat)
    requires DeskShaped(d)
  {
    t < TERMINALS && t != d.front && d.views[t].Open? && Top(d.views[t]) == p
  }

  ghost predicate Owned(entries: seq<Page>, d: Desk)
    requires |entries| == PROGRAMS + 1 && DeskShaped(d)
  {
    forall p, t :: 0 <= p <= PROGRAMS ==> (entries[p] == Backing(t) <==> Behind(d, t, p))
  }

  /** Who owns the screen: a program's video page is terminal t's backing page exactly when it is
      the current program of t and t is open in the background; otherwise it is the VGA page. */
  ghost predicate OwnershipAgrees(s: State, d: Desk)
    requires Shaped(s) && DeskShaped(d)
  {
    s.inForce == Vga && Owned(s.videoEntry, d)
  }

  ghost predicate TerminalAgrees(s: State, d: Desk, t: nat)
    requires Shaped(s) && DeskShaped(d) && t < TERMINALS
  {
    var v := d.views[t];
    var r := s.terminals[t];
    && (r.active <==> v.Open?)
    && r.programId == (if v.Open? then Top(v) else 0)
    && (v.Open? && t != d.front ==>
          r.cr3 == Top(v) && r.x == v.x && r.y == v.y && s.backing[t] == v.screen)
  }

  ghost predicate FrontAgrees(s: State, d: Desk)
    requires Shaped(s) && DeskShaped(d)
  {
    var v := d.views[d.front];
    && s.oldTerminal == d.front
    && !s.newTerminalFlag
    && s.cr3 == Top(v)
    && s.esp0 == KernelStackTop(Top(v))
    && s.vga == v.screen
    && s.screenX == v.x && s.screenY == v.y
  }

  ghost predicate Refines(s: State, d: Desk) {
    && Shaped(s) && DeskShaped(d)
    && TableAgrees(s.openTasks, Stacks(d))
    && OwnershipAgrees(s, d)
    && FrontAgrees(s, d)
    && (forall t :: 0 <= t < TERMINALS ==> TerminalAgrees(s, d, t))
  }

  // ----- One step -----

  lemma NextIsFirst(openTasks: seq<int>, d: Desk, slot: nat)
    requires |d.views| == TERMINALS && TableAgrees(openTasks, Stacks(d)) && NextSlot(d, slot)
    ensures HasFreeSlot(openTasks) && slot == FirstFree(openTasks, 1)
  {
  }

  lemma SlotIsNext(openTasks: seq<int>, d: Desk)
    requires |d.views| == TERMINALS && TableAgrees(openTasks, Stacks(d)) && HasFreeSlot(openTasks)
    ensures NextSlot(d, FirstFree(openTasks, 1))
  {
  }

  lemma PushTable(openTasks: seq<int>, stacks: seq<seq<nat>>, t: nat, slot: nat)
    requires TableAgrees(openTasks, stacks) && t < |stacks|
    requires 1 <= slot <= PROGRAMS && openTasks[slot] == -1
    ensures var parent := if stacks[t] == [] then 0 else stacks[t][|stacks[t]| - 1];
            TableAgrees(openTasks[slot := parent], stacks[t := stacks[t] + [slot]])
  {
    var parent := if stacks[t] == [] then 0 else stacks[t][|stacks[t]| - 1];
    var openTasks' := openTasks[slot := parent];
    var pushed := stacks[t := stacks[t] + [slot]];
    assert !Live(stacks, slot);
    forall u | 0 <= u < |pushed| ensures Linked(openTasks', pushed[u]) && Distinct(pushed[u]) {
      assert slot !in stacks[u];
      assert Linked(openTasks, stacks[u]) && Distinct(stacks[u]);
      forall i | 0 <= i < |pushed[u]| ensures Link(openTasks', pushed[u], i) {
        assert i < |stacks[u]| ==> Link(openTasks, stacks[u], i);
        assert u == t && 0 < i ==> Link(openTasks, stacks[t], i - 1);
      }
    }
    forall p | 1 <= p <= PROGRAMS ensures openTasks'[p] != -1 <==> Live(pushed, p) {
      if Live(stacks, p) {
        var u :| 0 <= u < |stacks| && p in stacks[u];
        assert p in pushed[u];
      }
      assert slot in pushed[t];
    }
  }

  lemma PopTable(openTasks: seq<int>, stacks: seq<seq<nat>>, t: nat)
    requires TableAgrees(openTasks, stacks) && t < |stacks| && |stacks[t]| > 0
    ensures var top := stacks[t][|stacks[t]| - 1];
            1 <= top <= PROGRAMS
            && TableAgrees(openTasks[top := -1], stacks[t := stacks[t][..|stacks[t]| - 1]])
  {
    assert Link(openTasks, stacks[t], |stacks[t]| - 1) && Distinct(stacks[t]);
    var top := stacks[t][|stacks[t]| - 1];
    var openTasks' := openTasks[top := -1];
    var popped := stacks[t := stacks[t][..|stacks[t]| - 1]];
    assert top in stacks[t];
    forall u | 0 <= u < |popped| ensures Linked(openTasks', popped[u]) && Distinct(popped[u]) && top !in popped[u] {
      assert Linked(openTasks, stacks[u]) && Distinct(stacks[u]);
      forall i | 0 <= i < |popped[u]| ensures Link(openTasks', popped[u], i) {
        assert Link(openTasks, stacks[u], i);
      }
    }
    forall p | 1 <= p <= PROGRAMS ensures openTasks'[p] != -1 <==> Live(popped, p) {
      if p != top && Live(stacks, p) {
        var u :| 0 <= u < |stacks| && p in stacks[u];
        assert p in popped[u];
      }
    }
  }

  /** The video page of a free slot, or of any program in the front console, is the VGA page. */
  lemma OwnsVga(s: State, d: Desk, p: nat)
    requires Refines(s, d) && p <= PROGRAMS
    requires !Live(Stacks(d), p) || p in Stacks(d)[d.front]
    ensures s.videoEntry[p] == Vga
  {
    hide TableAgrees, Live, Behind, FrontAgrees, TerminalAgrees;
    forall t: nat ensures !Behind(d, t, p) {
      NotBehind(s, d, t, p);
    }
    var t := if s.videoEntry[p].Backing? then s.videoEntry[p].term else 0;
    assert !Behind(d, t, p);
  }

  lemma NotBehind(s: State, d: Desk, t: nat, p: nat)
    requires Refines(s, d) && (!Live(Stacks(d), p) || p in Stacks(d)[d.front])
    ensures !Behind(d, t, p)
  {
    hide Owned, FrontAgrees, TerminalAgrees, Linked;
    assert t < TERMINALS && d.views[t].Open? ==> Top(d.views[t]) in Stacks(d)[t];
  }

  lemma ExecuteRefines(s: State, d: Desk, d': Desk)
    requires Refines(s, d) && HasFreeSlot(s.openTasks)
    requires var f := d.views[d.front];
             d' == d.(views := d.views[d.front := f.(stack := f.stack + [FirstFree(s.openTasks, 1)])])
    ensures Refines(Execute(s), d')
  {
    var slot := FirstFree(s.openTasks, 1);
    var s' := Execute(s);
    SlotIsNext(s.openTasks, d);
    PushTable(s.openTasks, Stacks(d), d.front, slot);
    assert Stacks(d') == Stacks(d)[d.front := Stacks(d)[d.front] + [slot]];
    OwnsVga(s, d, slot);
    SameBackground(s, d, s', d');
  }

  /** Starting or ending programs in front disturbs no other console. */
  lemma SameBackground(s: State, d: Desk, s': State, d': Desk)
    requires Refines(s, d) && Shaped(s') && DeskShaped(d')
    requires d'.front == d.front && d'.views == d.views[d.front := d'.views[d.front]] && d'.views[d.front].Open?
    requires s'.backing == s.backing && s'.videoEntry == s.videoEntry
    requires s'.terminals == s.terminals[d.front := s.terminals[d.front].(programId := Top(d'.views[d.front]))]
    ensures Owned(s'.videoEntry, d')
    ensures forall t :: 0 <= t < TERMINALS ==> TerminalAgrees(s', d', t)
  {
    forall t | 0 <= t < TERMINALS ensures TerminalAgrees(s', d', t) {
      assert TerminalAgrees(s, d, t);
    }
    assert forall t, p :: Behind(d', t, p) <==> Behind(d, t, p);
  }

  /** The running program's parent is the one below it on the front stack, or nobody. */
  lemma FrontParent(s: State, d: Desk)
    requires Refines(s, d)
    ensures var stack := d.views[d.front].stack;
            && s.openTasks[s.cr3] == (if |stack| == 1 then 0 else stack[|stack| - 2])
            && (|stack| > 1 ==> s.openTasks[s.cr3] >= 1)
            && Possible(s, Exit)
  {
    var stack := d.views[d.front].stack;
    assert Stacks(d)[d.front] == stack;
    assert Linked(s.openTasks, stack);
    assert Link(s.openTasks, stack, |stack| - 1) && s.cr3 == stack[|stack| - 1];
    assert |stack| > 1 ==> Link(s.openTasks, stack, |stack| - 2);
  }

  lemma HaltRefines(s: State, d: Desk, d': Desk)
    requires Refines(s, d) && Possible(s, Exit) && DeskStep(d, Exit, d')
    ensures Refines(Halt(s), d')
  {
    hide Live, NoneTwice, Behind, Linked;
    var stack := d.views[d.front].stack;
    FrontParent(s, d);
    if |stack| > 1 {
      PopTable(s.openTasks, Stacks(d), d.front);
      assert Stacks(d') == Stacks(d)[d.front := Stacks(d)[d.front][..|stack| - 1]];
      assert Halt(s).openTasks == s.openTasks[s.cr3 := -1];
      assert TableAgrees(Halt(s).openTasks, Stacks(d'));
      OwnsVga(s, d, stack[|stack| - 2]);
      SameBackground(s, d, Halt(s), d');
    }
  }

  /** Sending the front console to the back gives its program the backing page. */
  lemma OwnedBehind(entries: seq<Page>, d: Desk, back: nat, d': Desk)
    requires |entries| == PROGRAMS + 1 && DeskShaped(d) && DeskShaped(d') && NoneTwice(Stacks(d))
    requires Owned(entries, d) && |d'.views| == |d.views| && d'.front != d.front == back
    requires d'.views == d.views || (d.views[d'.front].Closed? && d'.views == d.views[d'.front := d'.views[d'.front]])
    requires forall t :: 0 <= t < TERMINALS && d.views[t].Open? ==> 1 <= Top(d.views[t]) <= PROGRAMS
    ensures var saved := entries[Top(d.views[back]) := Backing(back)];
            Owned(if d'.views == d.views then saved[Top(d.views[d'.front]) := Vga] else saved, d')
  {
    forall t, u | 0 <= t < TERMINALS && 0 <= u < TERMINALS && d.views[t].Open? && d.views[u].Open?
      && Top(d.views[t]) == Top(d.views[u])
      ensures t == u
    {
      assert Top(d.views[t]) in Stacks(d)[t] && Top(d.views[u]) in Stacks(d)[u];
    }
  }

  lemma TopsInRange(s: State, d: Desk)
    requires Refines(s, d)
    ensures forall t :: 0 <= t < TERMINALS && d.views[t].Open? ==> 1 <= Top(d.views[t]) <= PROGRAMS
  {
    forall t | 0 <= t < TERMINALS && d.views[t].Open? ensures 1 <= Top(d.views[t]) <= PROGRAMS {
      assert Linked(s.openTasks, Stacks(d)[t]) && Link(s.openTasks, Stacks(d)[t], |Stacks(d)[t]| - 1);
    }
  }

  lemma OpenRefines(s: State, d: Desk, t: nat)
    requires Refines(s, d) && t < TERMINALS && t != d.front && d.views[t].Open? && CanSwitch(s, t)
    ensures Refines(Switch(s, t), d.(front := t))
  {
    var d' := d.(front := t);
    var s' := Switch(s, t);
    assert Stacks(d') == Stacks(d);
    assert TerminalAgrees(s, d, t);
    TopsInRange(s, d);
    OwnedBehind(s.videoEntry, d, d.front, d');
    assert s'.videoEntry == s.videoEntry[s.cr3 := Backing(d.front)][Top(d.views[t]) := Vga];
    assert OwnershipAgrees(s', d');
    forall u | 0 <= u < TERMINALS ensures TerminalAgrees(s', d', u) {
      assert TerminalAgrees(s, d, u);
    }
  }

  /** What a first visit to terminal `t` leaves behind. */
  lemma ClosedState(s: State, t: nat)
    requires CanSwitch(s, t) && t < TERMINALS && t != s.oldTerminal && !s.terminals[t].active && s.inForce == Vga
    requires 1 <= s.cr3 && s.openTasks[s.cr3] != -1 && s.videoEntry[FirstFree(s.openTasks, 1)] == Vga
    ensures var slot, back, r := FirstFree(s.openTasks, 1), s.oldTerminal, s.terminals[s.oldTerminal];
            Switch(s, t) == s.(
              openTasks := s.openTasks[slot := 0],
              terminals := s.terminals
                [back := r.(cr3 := s.cr3, kernelEsp := s.esp0, programId := s.cr3, x := s.screenX, y := s.screenY)]
                [t := s.terminals[t].(active := true, programId := slot)],
              oldTerminal := t,
              newTerminalFlag := false,
              cr3 := slot,
              videoEntry := s.videoEntry[s.cr3 := Backing(back)],
              esp0 := KernelStackTop(slot),
              vga := Cleared(s.vga),
              backing := s.backing[back := s.vga])
  {
  }

  lemma ClosedRefines(s: State, d: Desk, t: nat, slot: nat, d': Desk)
    requires Refines(s, d) && t < TERMINALS && t != d.front && d.views[t].Closed? && CanSwitch(s, t)
    requires HasFreeSlot(s.openTasks) && slot == FirstFree(s.openTasks, 1)
    requires var f := d.views[d.front]; d' == Desk(d.views[t := Open([slot], Cleared(f.screen), f.x, f.y)], t)
    ensures Refines(Switch(s, t), d')
  {
    hide Switch, FirstFree, Cleared;
    var s' := Switch(s, t);
    assert TerminalAgrees(s, d, t);
    TopsInRange(s, d);
    assert s.openTasks[s.cr3] != -1 by { FrontParent(s, d); }
    assert NextSlot(d, slot) by { SlotIsNext(s.openTasks, d); }
    OwnsVga(s, d, slot);
    ClosedState(s, t);
    assert TableAgrees(s'.openTasks, Stacks(d')) by {
      PushTable(s.openTasks, Stacks(d), t, slot);
      assert Stacks(d)[t] + [slot] == [slot] == Stacks(d')[t];
      assert Stacks(d') == Stacks(d)[t := Stacks(d)[t] + [slot]];
    }
    hide TableAgrees, NextSlot;
    assert OwnershipAgrees(s', d') by {
      OwnedBehind(s.videoEntry, d, d.front, d');
    }
    forall u | 0 <= u < TERMINALS ensures TerminalAgrees(s', d', u) {
      assert TerminalAgrees(s, d, u);
    }
  }

  // ----- Runs -----

  /** Executes and first visits to a terminal need a free slot; stores stay in the page. */
  ghost predicate Allowed(d: Desk, e: Event)
    requires DeskShaped(d)
  {
    match e
    case Put(offset, _) => offset < PAGE_BYTES
    case MoveCursor(_, _) => true
    case Exec(loadable) => loadable ==> exists slot :: NextSlot(d, slot)
    case Exit => true
    case Select(t) =>
      0 <= t < TERMINALS && t != d.front && d.views[t].Closed? ==> exists slot :: NextSlot(d, slot)
  }

  lemma StoreRefines(s: State, d: Desk, e: Event, d': Desk)
    requires Refines(s, d) && Allowed(d, e) && DeskStep(d, e, d') && (e.Put? || e.MoveCursor?)
    ensures Refines(Step(s, e), d')
  {
    assert Stacks(d') == Stacks(d);
    forall t | 0 <= t < TERMINALS ensures TerminalAgrees(Step(s, e), d', t) {
      assert TerminalAgrees(s, d, t);
    }
  }

  lemma NoSwitch(s: State, t: int)
    requires Shaped(s) && (!(0 <= t < TERMINALS) || t == s.oldTerminal)
    ensures CanSwitch(s, t) && Switch(s, t) == s
  {
  }

  /** The kernel follows the desk: what the desk allows the kernel can do, and does. */
  lemma StepRefines(s: State, d: Desk, e: Event, d': Desk)
    requires Refines(s, d) && Allowed(d, e) && DeskStep(d, e, d')
    ensures Possible(s, e) && Refines(Step(s, e), d')
  {
    hide TableAgrees, Owned, Execute, Halt, Switch, Live;
    forall slot | NextSlot(d, slot) ensures HasFreeSlot(s.openTasks) && slot == FirstFree(s.openTasks, 1) {
      NextIsFirst(s.openTasks, d, slot);
    }
    match e
    case Put(_, _) => StoreRefines(s, d, e, d');
    case MoveCursor(_, _) => StoreRefines(s, d, e, d');
    case Exec(loadable) =>
      if loadable { ExecuteRefines(s, d, d'); }
    case Exit =>
      FrontParent(s, d);
      HaltRefines(s, d, d');
    case Select(t) =>
      if 0 <= t < TERMINALS && t != d.front {
        assert TerminalAgrees(s, d, t);
        TopsInRange(s, d);
        assert CanSwitch(s, t);
        if d.views[t].Open? { OpenRefines(s, d, t); }
        else { ClosedRefines(s, d, t, FirstFree(s.openTasks, 1), d'); }
      } else {
        NoSwitch(s, t);
      }
  }

  /** And what the kernel can do, the desk allows. */
  lemma StepFollows(s: State, d: Desk, e: Event)
    requires Refines(s, d) && Possible(s, e)
    ensures Allowed(d, e) && exists d' :: DeskStep(d, e, d') && Refines(Step(s, e), d')
  {
    hide TableAgrees, Owned, FrontAgrees, TerminalAgrees, Possible, DeskStep, Step;
    DeskCan(s, d, e);
    var d' :| DeskStep(d, e, d');
    StepRefines(s, d, e, d');
  }

  lemma DeskCan(s: State, d: Desk, e: Event)
    requires Refines(s, d) && Possible(s, e)
    ensures Allowed(d, e) && exists d' :: DeskStep(d, e, d')
  {
    hide Owned, NoneTwice, Linked;
    if HasFreeSlot(s.openTasks) { SlotIsNext(s.openTasks, d); }
    var f := d.views[d.front];
    var slot := FirstFree(s.openTasks, 1);
    var d' := match e
      case Put(offset, b) => d.(views := d.views[d.front := f.(screen := f.screen[offset := b])])
      case MoveCursor(x, y) => d.(views := d.views[d.front := f.(x := x, y := y)])
      case Exec(loadable) => if loadable then d.(views := d.views[d.front := f.(stack := f.stack + [slot])]) else d
      case Exit => if |f.stack| == 1 then d else d.(views := d.views[d.front := f.(stack := f.stack[..|f.stack| - 1])])
      case Select(t) =>
        if !(0 <= t < TERMINALS) || t == d.front then d
        else if d.views[t].Open? then d.(front := t)
        else Desk(d.views[t := Open([slot], Cleared(f.screen), f.x, f.y)], t);
    assert e.Select? && 0 <= e.term < TERMINALS ==> TerminalAgrees(s, d, e.term);
    assert DeskStep(d, e, d');
  }

  /** `states` is a run of the kernel on `events`. */
  ghost predicate KernelRun(states: seq<State>, events: seq<Event>) {
    && |states| == |events| + 1
    && forall i :: 0 <= i < |events| ==> Possible(states[i], events[i]) && states[i + 1] == Step(states[i], events[i])
  }

  /** `desks` is a run of the desk on `events`, and the kernel's `states` follow it throughout. */
  ghost predicate Follows(states: seq<State>, events: seq<Event>, desks: seq<Desk>) {
    && |desks| == |states| == |events| + 1
    && (forall i :: 0 <= i < |desks| ==> Refines(states[i], desks[i]))
    && (forall i :: 0 <= i < |events| ==> Allowed(desks[i], events[i]) && DeskStep(desks[i], events[i], desks[i + 1]))
  }

  /** Console multiplexing over whole runs: every run of kernel entries is a run of three
      independent consoles, state by state. */
  lemma {:induction false} RunRefines(states: seq<State>, events: seq<Event>, d: Desk)
    requires KernelRun(states, events) && Refines(states[0], d)
    ensures exists desks :: Follows(states, events, desks) && desks[0] == d
    decreases |events|
  {
    hide TableAgrees, Owned, FrontAgrees, TerminalAgrees, Step, Possible, DeskStep, Allowed;
    var n := |events|;
    if n == 0 {
      assert Follows(states, events, [d]);
    } else {
      RunRefines(states[..n], events[..n - 1], d);
      var desks: seq<Desk> :| Follows(states[..n], events[..n - 1], desks) && desks[0] == d;
      assert Refines(states[n - 1], desks[n - 1]);
      StepFollows(states[n - 1], desks[n - 1], events[n - 1]);
      var last :| DeskStep(desks[n - 1], events[n - 1], last) && Refines(Step(states[n - 1], events[n - 1]), last);
      assert states[n - 1 + 1] == Step(states[n - 1], events[n - 1]);
      FollowOn(states, events, desks, last);
      assert (desks + [last])[0] == d;
    }
  }

  lemma FollowOn(states: seq<State>, events: seq<Event>, desks: seq<Desk>, last: Desk)
    requires |states| == |events| + 1 && |events| > 0
    requires var n := |events|;
             && Follows(states[..n], events[..n - 1], desks)
             && Refines(states[n - 1], desks[n - 1]) && Refines(states[n], last)
             && Allowed(desks[n - 1], events[n - 1]) && DeskStep(desks[n - 1], events[n - 1], last)
    ensures Follows(states, events, desks + [last])
  {
    hide TableAgrees, Owned, FrontAgrees, TerminalAgrees, DeskStep, Allowed, DeskShaped, Shaped;
    var n, all := |events|, desks + [last];
    forall i | 0 <= i < n
      ensures Refines(states[i], all[i]) && Allowed(all[i], events[i]) && DeskStep(all[i], events[i], all[i + 1])
    {
      assert all[i] == desks[i] && states[..n][i] == states[i];
      if i < n - 1 {
        assert events[..n - 1][i] == events[i] && all[i + 1] == desks[i + 1];
      }
    }
  }

  /** The first shell runs in terminal 0 on a blank screen; the other terminals are closed. */
  lemma BootRefines(page: seq<byte>, backing: seq<seq<byte>>, x: int, y: int)
    requires |page| == PAGE_BYTES
    requires |backing| == TERMINALS && forall t :: 0 <= t < TERMINALS ==> |backing[t]| == PAGE_BYTES
    ensures Refines(Boot(page, backing, x, y), Desk([Open([1], Cleared(page), x, y), Closed, Closed], 0))
  {
    var d := Desk([Open([1], Cleared(page), x, y), Closed, Closed], 0);
    var s := Boot(page, backing, x, y);
    assert Stacks(d) == [[1], [], []];
    assert s.openTasks[1] == 0;
    assert 1 in Stacks(d)[0];
  }

  // ----- A cleared screen -----

  lemma ClearedIs(page: seq<byte>)
    requires |page| == 4096
    ensures var r := Cleared(page);
            && |r| == 4096
            && (forall c :: 0 <= c < 2000 ==> r[2 * c] == 32 && r[2 * c + 1] == 7)
            && (forall i :: 4000 <= i < 4096 ==> r[i] == page[i])
  {
  }

  /** The first shell starts on 2000 blanks of the usual colour. */
  lemma BootScreen(page: seq<byte>, backing: seq<seq<byte>>, x: int, y: int)
    requires |page| == 4096
    requires |backing| == 3 && forall t :: 0 <= t < 3 ==> |backing[t]| == 4096
    ensures var screen := Boot(page, backing, x, y).vga;
            && |screen| == 4096
            && (forall c :: 0 <= c < 2000 ==> screen[2 * c] == 32 && screen[2 * c + 1] == 7)
            && (forall i :: 4000 <= i < 4096 ==> screen[i] == page[i])
  {
    hide Cleared;
    BootRefines(page, backing, x, y);
    ClearedIs(page);
  }

  /** And so does a terminal that is visited for the first time, whatever the screen showed before. */
  lemma FirstVisitScreen(s: State, d: Desk, t: nat)
    requires Refines(s, d) && CanSwitch(s, t) && t < 3 && t != s.oldTerminal && !s.terminals[t].active
    ensures Shaped(Switch(s, t))
    ensures var screen := Switch(s, t).vga;
            && |screen| == |s.vga| == 4096
            && (forall c :: 0 <= c < 2000 ==> screen[2 * c] == 32 && screen[2 * c + 1] == 7)
            && (forall i :: 4000 <= i < 4096 ==> screen[i] == s.vga[i])
    ensures Switch(s, t).screenX == s.screenX && Switch(s, t).screenY == s.screenY
  {
    hide Cleared, Switch, FirstFree;
    var f, slot := d.views[d.front], FirstFree(s.openTasks, 1);
    assert TerminalAgrees(s, d, t);
    ClosedRefines(s, d, t, slot, Desk(d.views[t := Open([slot], Cleared(f.screen), f.x, f.y)], t));
    ClearedIs(s.vga);
  }

  // ----- What follows in every reachable state -----

  ghost predicate InKernelStack(address: int, program: int) {
    MB_8 - KB_8 * program <= address < MB_8 - KB_8 * (program - 1)
  }

  /** The running program is the one in front, `find_terminal` finds it there, and the kernel
      stack in use is its own and nobody else's. */
  lemma RunningIsForeground(s: State, d: Desk)
    requires Refines(s, d)
    ensures s.terminals[s.oldTerminal].programId == s.cr3
    ensures FindTerminal(s.terminals, s.cr3) == s.oldTerminal
    ensures forall p :: 0 <= p <= PROGRAMS ==> (InKernelStack(s.esp0, p) <==> p == s.cr3)
    ensures 1 <= s.cr3 <= 6 && s.esp0 == 0x80_0000 - 0x2000 * (s.cr3 - 1) - 4
  {
    var t := FindTerminal(s.terminals, s.cr3);
    assert TerminalAgrees(s, d, d.front);
    assert TerminalAgrees(s, d, t);
    TopsInRange(s, d);
    assert s.cr3 in Stacks(d)[d.front] && s.cr3 == Stacks(d)[d.front][|Stacks(d)[d.front]| - 1];
    assert forall u :: 0 <= u < TERMINALS && d.views[u].Open? ==> Top(d.views[u]) in Stacks(d)[u];
  }

  lemma ParentBelow(openTasks: seq<int>, stacks: seq<seq<nat>>, p: nat, c: nat)
    requires TableAgrees(openTasks, stacks) && 1 <= c <= PROGRAMS && openTasks[c] == p >= 1
    ensures exists t, i :: 0 <= t < |stacks| && 0 <= i < |stacks[t]| - 1 && stacks[t][i] == p && stacks[t][i + 1] == c
  {
    var t :| 0 <= t < |stacks| && c in stacks[t];
    var j :| 0 <= j < |stacks[t]| && stacks[t][j] == c;
    assert Linked(openTasks, stacks[t]) && Link(openTasks, stacks[t], j);
    assert stacks[t][j - 1] == p && stacks[t][j - 1 + 1] == c;
  }

  lemma OnePlace(stacks: seq<seq<nat>>, t: nat, i: nat, u: nat, j: nat)
    requires NoneTwice(stacks) && t < |stacks| && u < |stacks| && i < |stacks[t]| && j < |stacks[u]|
    requires stacks[t][i] == stacks[u][j]
    ensures t == u && i == j
  {
    assert stacks[t][i] in stacks[t] && stacks[u][j] in stacks[u];
    assert Distinct(stacks[t]);
  }

  /** No program has two children, and the current program of a terminal has none. */
  lemma OneChild(openTasks: seq<int>, stacks: seq<seq<nat>>, p: nat, q: nat, r: nat)
    requires TableAgrees(openTasks, stacks) && 1 <= p && 1 <= q <= PROGRAMS && 1 <= r <= PROGRAMS
    requires openTasks[q] == p
    ensures forall t :: 0 <= t < |stacks| && |stacks[t]| > 0 ==> stacks[t][|stacks[t]| - 1] != p
    ensures openTasks[r] == p ==> q == r
  {
    hide Live, Linked, NoneTwice;
    ParentBelow(openTasks, stacks, p, q);
    var t, i :| 0 <= t < |stacks| && 0 <= i < |stacks[t]| - 1 && stacks[t][i] == p && stacks[t][i + 1] == q;
    forall u | 0 <= u < |stacks| && |stacks[u]| > 0 ensures stacks[u][|stacks[u]| - 1] != p {
      if stacks[u][|stacks[u]| - 1] == p {
        OnePlace(stacks, t, i, u, |stacks[u]| - 1);
      }
    }
    if openTasks[r] == p {
      ParentBelow(openTasks, stacks, p, r);
      var u, j :| 0 <= u < |stacks| && 0 <= j < |stacks[u]| - 1 && stacks[u][j] == p && stacks[u][j + 1] == r;
      OnePlace(stacks, t, i, u, j);
    }
  }

  /** Following parent links `k` times. */
  function Ancestor(openTasks: seq<int>, p: int, k: nat): int
    decreases k
  {
    if k == 0 || p <= 0 || p >= |openTasks| then p else Ancestor(openTasks, openTasks[p], k - 1)
  }

  /** From the current program of an open terminal the links walk down its stack and end at 0. */
  lemma {:induction false} ChainEnds(openTasks: seq<int>, stack: seq<nat>, k: nat)
    requires |openTasks| == PROGRAMS + 1 && Linked(openTasks, stack) && 0 < |stack|
    ensures Ancestor(openTasks, stack[|stack| - 1], k) == if k >= |stack| then 0 else stack[|stack| - 1 - k]
    decreases k
  {
    var top := stack[|stack| - 1];
    assert Link(openTasks, stack, |stack| - 1);
    if k > 0 && |stack| > 1 {
      var below := stack[..|stack| - 1];
      forall i | 0 <= i < |below| ensures Link(openTasks, below, i) {
        assert Link(openTasks, stack, i);
      }
      ChainEnds(openTasks, below, k - 1);
      assert openTasks[top] == below[|below| - 1];
    }
  }

  /** `p` is reached from the current program of open terminal `t` by following `k` parent links. */
  ghost predicate OnChain(s: State, t: nat, k: nat, p: nat)
    requires Shaped(s)
  {
    t < TERMINALS && s.terminals[t].active && Ancestor(s.openTasks, s.terminals[t].programId, k) == p
  }

  lemma ChainIsStack(s: State, d: Desk, t: nat)
    requires Refines(s, d) && t < TERMINALS && s.terminals[t].active
    ensures d.views[t].Open? && Stacks(d)[t] == d.views[t].stack
    ensures forall k: nat, p: nat :: OnChain(s, t, k, p) <==>
              p == if k >= |d.views[t].stack| then 0 else d.views[t].stack[|d.views[t].stack| - 1 - k]
  {
    assert TerminalAgrees(s, d, t);
    var stack := d.views[t].stack;
    assert Stacks(d)[t] == stack && Linked(s.openTasks, stack);
    forall k: nat ensures Ancestor(s.openTasks, s.terminals[t].programId, k)
                          == if k >= |stack| then 0 else stack[|stack| - 1 - k] {
      ChainEnds(s.openTasks, stack, k);
    }
  }

  /** Where on its terminal's stack a program on a chain is. */
  lemma OnStack(s: State, d: Desk, t: nat, k: nat, p: nat)
    requires Refines(s, d) && 1 <= p && OnChain(s, t, k, p)
    ensures t < TERMINALS && k < |Stacks(d)[t]|
    ensures Stacks(d)[t][|Stacks(d)[t]| - 1 - k] == p && p in Stacks(d)[t]
  {
    ChainIsStack(s, d, t);
  }

  lemma LiveIsOnChain(s: State, d: Desk, p: nat)
    requires Refines(s, d) && Live(Stacks(d), p)
    ensures exists t, k :: OnChain(s, t, k, p)
  {
    var t :| 0 <= t < TERMINALS && p in Stacks(d)[t];
    var i :| 0 <= i < |Stacks(d)[t]| && Stacks(d)[t][i] == p;
    assert TerminalAgrees(s, d, t);
    ChainIsStack(s, d, t);
    assert OnChain(s, t, |Stacks(d)[t]| - 1 - i, p);
  }

  /** The process forest: the chains of the open terminals cover exactly the live slots... */
  lemma ProcessForest(s: State, d: Desk, p: nat)
    requires Refines(s, d) && 1 <= p <= PROGRAMS
    ensures s.openTasks[p] != -1 <==> exists t, k :: OnChain(s, t, k, p)
  {
    hide Owned, FrontAgrees, TerminalAgrees, OnChain, Linked, NoneTwice;
    if Live(Stacks(d), p) {
      LiveIsOnChain(s, d, p);
    }
    if t: nat, k: nat :| OnChain(s, t, k, p) {
      OnStack(s, d, t, k, p);
    }
  }

  /** ...and none of them meets another or itself. */
  lemma ForestIsDisjoint(s: State, d: Desk, p: nat, t: nat, k: nat, u: nat, j: nat)
    requires Refines(s, d) && 1 <= p <= PROGRAMS && OnChain(s, t, k, p) && OnChain(s, u, j, p)
    ensures t == u && k == j
  {
    hide Owned, FrontAgrees, TerminalAgrees, Linked;
    OnStack(s, d, t, k, p);
    OnStack(s, d, u, j, p);
    assert Distinct(Stacks(d)[t]);
  }

  /** Video ownership in the kernel's own terms. */
  lemma VideoOwnership(s: State, d: Desk, p: nat, t: nat)
    requires Refines(s, d) && p <= PROGRAMS && t < TERMINALS
    ensures s.videoEntry[p] == Backing(t) <==>
              t != s.oldTerminal && s.terminals[t].active && s.terminals[t].programId == p
    ensures s.inForce == Vga
  {
    assert TerminalAgrees(s, d, t);
  }

  /** The running program is the current program of the terminal in front, and runs on its own kernel stack. */
  ghost predicate RunsInFront(s: State)
    requires Shaped(s)
  {
    && s.terminals[s.oldTerminal].programId == s.cr3
    && FindTerminal(s.terminals, s.cr3) == s.oldTerminal
    && forall p :: 0 <= p <= PROGRAMS ==> (InKernelStack(s.esp0, p) <==> p == s.cr3)
  }

  /** Each program writes to the backing page of the background terminal it is the current program of,
      or else to the VGA page; the running program writes to the VGA page. */
  ghost predicate PagesOwned(s: State)
    requires Shaped(s)
  {
    && s.inForce == Vga
    && forall p, t :: 0 <= p <= PROGRAMS && 0 <= t < TERMINALS ==>
         (s.videoEntry[p] == Backing(t) <==>
            t != s.oldTerminal && s.terminals[t].active && s.terminals[t].programId == p)
  }

  /** The chains of parent links from the active terminals' current programs end, cover exactly the live
      slots, and meet neither each other nor themselves. */
  ghost predicate IsForest(s: State)
    requires Shaped(s)
  {
    && (forall t :: 0 <= t < TERMINALS && s.terminals[t].active ==> exists k :: OnChain(s, t, k, 0))
    && (forall p :: 1 <= p <= PROGRAMS ==> (s.openTasks[p] != -1 <==> exists t, k :: OnChain(s, t, k, p)))
    && (forall p, t, k, u, j :: 1 <= p <= PROGRAMS && OnChain(s, t, k, p) && OnChain(s, u, j, p) ==> t == u && k == j)
  }

  lemma KernelInvariant(s: State, d: Desk)
    requires Refines(s, d)
    ensures RunsInFront(s) && PagesOwned(s) && IsForest(s)
  {
    RunningIsForeground(s, d);
    hide TableAgrees, Owned, FrontAgrees, TerminalAgrees, OnChain;
    forall p, t | 0 <= p <= PROGRAMS && 0 <= t < TERMINALS
      ensures s.videoEntry[p] == Backing(t)
              <==> t != s.oldTerminal && s.terminals[t].active && s.terminals[t].programId == p
      ensures s.inForce == Vga
    {
      VideoOwnership(s, d, p, t);
    }
    assert s.inForce == Vga by { VideoOwnership(s, d, 0, 0); }
    forall t | 0 <= t < TERMINALS && s.terminals[t].active ensures exists k :: OnChain(s, t, k, 0) {
      ChainIsStack(s, d, t);
      assert OnChain(s, t, |d.views[t].stack|, 0);
    }
    forall p | 1 <= p <= PROGRAMS ensures s.openTasks[p] != -1 <==> exists t, k :: OnChain(s, t, k, p) {
      ProcessForest(s, d, p);
    }
    forall p, t, k, u, j | 1 <= p <= PROGRAMS && OnChain(s, t, k, p) && OnChain(s, u, j, p) ensures t == u && k == j {
      ForestIsDisjoint(s, d, p, t, k, u, j);
    }
  }

  /** So it is in every state that the kernel reaches, entry by entry, after it has started. */
  lemma EveryReachableState(page: seq<byte>, backing: seq<seq<byte>>, x: int, y: int,
                            states: seq<State>, events: seq<Event>, i: nat)
    requires |page| == PAGE_BYTES
    requires |backing| == TERMINALS && forall t :: 0 <= t < TERMINALS ==> |backing[t]| == PAGE_BYTES
    requires KernelRun(states, events) && states[0] == Boot(page, backing, x, y) && i < |states|
    ensures Shaped(states[i]) && RunsInFront(states[i]) && PagesOwned(states[i]) && IsForest(states[i])
  {
    hide TableAgrees, Owned, FrontAgrees, TerminalAgrees, Boot, Cleared;
    hide RunsInFront, PagesOwned, IsForest, Step, DeskStep;
    var d := Desk([Open([1], Cleared(page), x, y), Closed, Closed], 0);
    BootRefines(page, backing, x, y);
    RunRefines(states, events, d);
    var desks: seq<Desk> :| Follows(states, events, desks) && desks[0] == d;
    assert Refines(states[i], desks[i]);
    KernelInvariant(states[i], desks[i]);
  }

  /** The stacks determine the table. */
  lemma TableUnique(o1: seq<int>, o2: seq<int>, stacks: seq<seq<nat>>)
    requires TableAgrees(o1, stacks) && TableAgrees(o2, stacks)
    ensures o1 == o2
  {
    forall p | 1 <= p <= PROGRAMS ensures o1[p] == o2[p] {
      if Live(stacks, p) {
        var t :| 0 <= t < |stacks| && p in stacks[t];
        var i :| 0 <= i < |stacks[t]| && stacks[t][i] == p;
        assert Linked(o1, stacks[t]) && Linked(o2, stacks[t]);
        assert Link(o1, stacks[t], i) && Link(o2, stacks[t], i);
      }
    }
  }

  /** While another console is in front, a console does not change. */
  lemma {:induction false} Undisturbed(states: seq<State>, events: seq<Event>, desks: seq<Desk>, a: nat, n: nat)
    requires Follows(states, events, desks) && 1 <= n <= |events| && a < TERMINALS
    requires desks[0].front == a && forall i :: 0 < i < n ==> desks[i].front != a
    requires n > 1 || desks[1].front != a
    ensures desks[n].views[a] == desks[0].views[a]
    decreases n
  {
    assert DeskStep(desks[n - 1], events[n - 1], desks[n - 1 + 1]);
    if n > 1 {
      Undisturbed(states, events, desks, a, n - 1);
    }
  }

  /** Two states whose front consoles agree give the user the same console. */
  lemma SameFront(s: State, d: Desk, s': State, d': Desk)
    requires Refines(s, d) && Refines(s', d')
    requires d'.front == d.front && d'.views[d.front].stack == d.views[d.front].stack
    ensures SameProgram(s, s', |d.views[d.front].stack|)
    ensures d'.views[d.front] == d.views[d.front] ==> SameScreen(s, s')
  {
    var stack := d.views[d.front].stack;
    assert Stacks(d)[d.front] == stack == Stacks(d')[d.front];
    assert Linked(s.openTasks, stack) && Linked(s'.openTasks, stack);
    forall k | 0 <= k <= |stack| ensures Ancestor(s'.openTasks, s'.cr3, k) == Ancestor(s.openTasks, s.cr3, k) {
      ChainEnds(s.openTasks, stack, k);
      ChainEnds(s'.openTasks, stack, k);
    }
    ChainEnds(s.openTasks, stack, |stack|);
    RunningIsForeground(s, d);
    RunningIsForeground(s', d');
  }

  /** The same program runs in the same terminal, on the same kernel stack, with the same chain of
      `depth` programs behind it. */
  ghost predicate SameProgram(s: State, s': State, depth: nat) {
    && s'.oldTerminal == s.oldTerminal
    && s'.cr3 == s.cr3
    && s'.esp0 == s.esp0
    && Shaped(s) && Shaped(s')
    && s'.terminals[s.oldTerminal].programId == s.terminals[s.oldTerminal].programId == s.cr3
    && Ancestor(s.openTasks, s.cr3, depth) == 0
    && forall k :: 0 <= k <= depth ==> Ancestor(s'.openTasks, s'.cr3, k) == Ancestor(s.openTasks, s.cr3, k)
  }

  ghost predicate SameScreen(s: State, s': State) {
    s'.vga == s.vga && s'.screenX == s.screenX && s'.screenY == s.screenY
  }

  /** Switching away and back, with anything in between, restores the screen, the cursor and the
      running program. */
  lemma SwitchAwayAndBack(states: seq<State>, events: seq<Event>, d: Desk)
    requires KernelRun(states, events) && Refines(states[0], d) && |events| > 1
    requires forall i :: 0 < i < |events| ==> states[i].oldTerminal != states[0].oldTerminal
    requires states[|events|].oldTerminal == states[0].oldTerminal
    ensures SameScreen(states[0], states[|events|])
    ensures SameProgram(states[0], states[|events|], |d.views[d.front].stack|)
  {
    hide TableAgrees, Owned, TerminalAgrees, Step, Possible, DeskStep, Allowed, SameProgram;
    RunRefines(states, events, d);
    var desks: seq<Desk> :| Follows(states, events, desks) && desks[0] == d;
    var n := |events|;
    assert forall i :: 0 <= i <= n ==> Refines(states[i], desks[i]) && states[i].oldTerminal == desks[i].front;
    Undisturbed(states, events, desks, d.front, n);
    SameFront(states[0], d, states[n], desks[n]);
  }

  /** One event cannot disturb what lies below a program that stays alive. */
  lemma StepKeepsPlace(d: Desk, e: Event, d': Desk, a: nat, place: seq<nat>)
    requires DeskShaped(d) && DeskStep(d, e, d') && NoneTwice(Stacks(d)) && |d'.views| == TERMINALS
    requires a < TERMINALS && d.views[a].Open? && place <= d.views[a].stack && |place| > 0
    requires Live(Stacks(d'), place[|place| - 1])
    ensures d'.views[a].Open? && place <= d'.views[a].stack
  {
    var p := place[|place| - 1];
    assert Stacks(d)[a] == d.views[a].stack && p in Stacks(d)[a];
    if e.Exit? && a == d.front && d.views[a].stack == place && |place| > 1 {
      var j := |place| - 1;
      assert Distinct(Stacks(d)[a]);
      assert Stacks(d')[a] == place[..j];
      assert forall t :: 0 <= t < TERMINALS && t != a ==> Stacks(d')[t] == Stacks(d)[t];
    }
  }

  /** The started program sits on top of its caller. */
  lemma Started(s: State, d: Desk, d': Desk, s': State)
    requires Refines(s, d) && Refines(s', d') && DeskStep(d, Exec(true), d')
    ensures d'.views[d.front].Open? && d'.views[d.front].stack == d.views[d.front].stack + [s'.cr3]
  {
  }

  /** While the program that `events[0]` starts stays alive, it stays where it was put. */
  lemma {:induction false} StaysInPlace(states: seq<State>, events: seq<Event>, desks: seq<Desk>, n: nat)
    requires Follows(states, events, desks) && 1 <= n <= |events| && events[0] == Exec(true)
    requires forall i :: 1 <= i <= n ==> states[i].openTasks[states[1].cr3] != -1
    ensures var a := desks[0].front;
            desks[0].views[a].Open? && desks[n].views[a].Open?
            && desks[0].views[a].stack + [states[1].cr3] <= desks[n].views[a].stack
    decreases n
  {
    hide Owned, TerminalAgrees, DeskStep;
    var a, p := desks[0].front, states[1].cr3;
    var place := desks[0].views[a].stack + [p];
    assert Refines(states[n - 1], desks[n - 1]) && Refines(states[n], desks[n]) && Refines(states[1], desks[1]);
    assert DeskStep(desks[n - 1], events[n - 1], desks[n - 1 + 1]);
    TopsInRange(states[1], desks[1]);
    if n == 1 {
      Started(states[0], desks[0], desks[1], states[1]);
    } else {
      StaysInPlace(states, events, desks, n - 1);
      StepKeepsPlace(desks[n - 1], events[n - 1], desks[n], a, place);
    }
  }

  /** When the program on top of the front stack halts, its caller is in front again. */
  lemma Ended(s: State, d: Desk, d': Desk, a: nat, below: seq<nat>)
    requires Refines(s, d) && DeskStep(d, Exit, d') && DeskShaped(d') && a < TERMINALS && d.views[a].Open?
    requires |below| > 0 && below + [s.cr3] <= d.views[a].stack
    ensures d'.front == d.front == a && d'.views[a].stack == below
  {
    assert s.cr3 == Top(d.views[d.front]) && s.cr3 in Stacks(d)[d.front];
    assert d.views[a].stack[|below|] == s.cr3 && s.cr3 in Stacks(d)[a] && Distinct(Stacks(d)[a]);
  }

  /** `execute` and the `halt` of the program it started, with anything in between: the caller runs
      again, in front, with the same programs behind it, and if no other terminal was visited the
      whole process table is as it was. */
  lemma MatchingHalt(states: seq<State>, events: seq<Event>, d: Desk)
    requires KernelRun(states, events) && Refines(states[0], d)
    ensures Matched(states, events) ==>
              SameProgram(states[0], states[|events|], |d.views[d.front].stack|)
    ensures Matched(states, events) && InOneTerminal(states) ==> states[|events|].openTasks == states[0].openTasks
  {
    RunRefines(states, events, d);
    var desks: seq<Desk> :| Follows(states, events, desks) && desks[0] == d;
    hide *;
    if Matched(states, events) {
      CallerRestored(states, events, desks);
      if InOneTerminal(states) {
        TableRestored(states, events, desks);
      }
    }
  }

  ghost predicate InOneTerminal(states: seq<State>) {
    forall i :: 0 <= i < |states| ==> states[i].oldTerminal == states[0].oldTerminal
  }

  lemma CallerRestored(states: seq<State>, events: seq<Event>, desks: seq<Desk>)
    requires Follows(states, events, desks) && Matched(states, events)
    ensures Refines(states[0], desks[0])
    ensures SameProgram(states[0], states[|events|], |desks[0].views[desks[0].front].stack|)
  {
    hide TableAgrees, Owned, FrontAgrees, TerminalAgrees, DeskStep, Allowed, SameProgram;
    assert Refines(states[0], desks[0]) && Refines(states[|events|], desks[|events|]);
    BackToCaller(states, events, desks);
    SameFront(states[0], desks[0], states[|events|], desks[|events|]);
  }

  lemma TableRestored(states: seq<State>, events: seq<Event>, desks: seq<Desk>)
    requires Follows(states, events, desks) && Matched(states, events) && InOneTerminal(states)
    ensures states[|events|].openTasks == states[0].openTasks
  {
    hide TableAgrees, Owned, TerminalAgrees, DeskStep, Allowed;
    var n := |events|;
    assert forall i :: 0 <= i <= n ==> Refines(states[i], desks[i]) && states[i].oldTerminal == desks[i].front;
    BackToCaller(states, events, desks);
    OthersUnchanged(states, events, desks, n);
    assert Stacks(desks[n]) == Stacks(desks[0]);
    TableUnique(states[0].openTasks, states[n].openTasks, Stacks(desks[0]));
  }

  /** The last event halts the program that the first one started, which lived all along. */
  ghost predicate Matched(states: seq<State>, events: seq<Event>) {
    && |states| == |events| + 1 > 2
    && events[0] == Exec(true) && events[|events| - 1] == Exit
    && states[|events| - 1].cr3 == states[1].cr3
    && forall i :: 1 <= i < |events| ==>
         |states[i].openTasks| > states[1].cr3 && states[i].openTasks[states[1].cr3] != -1
  }

  lemma BackToCaller(states: seq<State>, events: seq<Event>, desks: seq<Desk>)
    requires Follows(states, events, desks) && Matched(states, events)
    ensures var d, d' := desks[0], desks[|events|];
            d'.front == d.front && d'.views[d.front].stack == d.views[d.front].stack
  {
    hide TableAgrees, Owned, FrontAgrees, TerminalAgrees, DeskStep;
    var n := |events|;
    assert Refines(states[0], desks[0]) && Refines(states[n - 1], desks[n - 1]) && Refines(states[n], desks[n]);
    assert DeskStep(desks[n - 1], events[n - 1], desks[n - 1 + 1]);
    StaysInPlace(states, events, desks, n - 1);
    Ended(states[n - 1], desks[n - 1], desks[n], desks[0].front, desks[0].views[desks[0].front].stack);
  }

  lemma {:induction false} OthersUnchanged(states: seq<State>, events: seq<Event>, desks: seq<Desk>, n: nat)
    requires Follows(states, events, desks) && n <= |events|
    requires forall i :: 0 <= i <= n ==> desks[i].front == desks[0].front
    ensures forall t :: 0 <= t < TERMINALS && t != desks[0].front ==> desks[n].views[t] == desks[0].views[t]
    decreases n
  {
    if n > 0 {
      OthersUnchanged(states, events, desks, n - 1);
      assert DeskStep(desks[n - 1], events[n - 1], desks[n - 1 + 1]);
    }
  }
}
