/**
 Keyboard interrupts inside `execute` and `halt`.

 `Console.Step` takes each system call as one step.  A system call runs with interrupts on, so the
 keyboard can switch terminals in the middle of one, and the call goes on when its terminal is in
 front again.  Here `execute` and `halt` are taken apart where they name a program and where they
 load its pages, and it is shown exactly which switches in between do harm.
 */
module Interrupts {
  import opened Bytes
  import opened Basics
  import opened Console

  // ----- The parts -----

  /** `execute` with a slot it has found free: link it to the caller and make it the current program. */
  function ClaimSlot(s: State, slot: nat): State
    requires Shaped(s) && 1 <= slot <= PROGRAMS
  {
    var parent := if s.newTerminalFlag then 0 else s.cr3;
    SetProgram(s.(openTasks := s.openTasks[slot := parent], newTerminalFlag := false), slot)
  }

  function Claim(s: State): State
    requires Shaped(s) && HasFreeSlot(s.openTasks)
  {
    ClaimSlot(s, FirstFree(s.openTasks, 1))
  }

  /** The rest of `execute`, and what `halt` does next: load the pages and set the kernel stack. */
  function Load(s: State, program: nat): State
    requires Shaped(s) && program <= PROGRAMS
  {
    LoadCr3(s, program).(esp0 := KernelStackTop(program))
  }

  /** `halt`: make the parent the current program. */
  function Resign(s: State): State
    requires Shaped(s)
  {
    SetProgram(s, s.openTasks[s.cr3])
  }

  /** The end of `halt`. */
  function Free(s: State, program: nat): State
    requires Shaped(s) && program <= PROGRAMS
  {
    s.(openTasks := s.openTasks[program := -1])
  }

  lemma ExecuteInParts(s: State)
    requires Shaped(s) && HasFreeSlot(s.openTasks)
    ensures Execute(s) == Load(Claim(s), FirstFree(s.openTasks, 1))
  {
  }

  lemma HaltInParts(s: State)
    requires Shaped(s) && 1 <= s.openTasks[s.cr3] <= PROGRAMS
    ensures Halt(s) == Free(Load(Resign(s), s.openTasks[s.cr3]), s.cr3)
  {
  }

  datatype Part = Entry(e: Event) | Claiming | Resigning | Loading(program: nat) | Freeing(program: nat)

  ghost predicate CanDo(s: State, part: Part) {
    Shaped(s) &&
    match part
    case Entry(e) => Possible(s, e)
    case Claiming => HasFreeSlot(s.openTasks)
    case Resigning => true
    case Loading(program) => program <= PROGRAMS
    case Freeing(program) => program <= PROGRAMS
  }

  function Do(s: State, part: Part): State
    requires CanDo(s, part)
  {
    match part
    case Entry(e) => Step(s, e)
    case Claiming => Claim(s)
    case Resigning => Resign(s)
    case Loading(program) => Load(s, program)
    case Freeing(program) => Free(s, program)
  }

  /** What the keyboard's handler does: it echoes, and it switches. */
  ghost predicate ByKeyboard(part: Part) {
    part.Entry? && (part.e.Put? || part.e.MoveCursor? || part.e.Select?)
  }

  /** What happens while a system call in terminal `a` is interrupted: as long as `a` is in front only
      the keyboard's handler runs, and otherwise anything may, other interrupted calls included.  The
      call goes on when `a` is in front. */
  ghost predicate Interlude(states: seq<State>, parts: seq<Part>, a: int) {
    && |states| == |parts| + 1
    && (forall i :: 0 <= i < |parts| ==>
          && CanDo(states[i], parts[i])
          && states[i + 1] == Do(states[i], parts[i])
          && (states[i].oldTerminal == a ==> ByKeyboard(parts[i])))
    && states[0].oldTerminal == states[|parts|].oldTerminal == a
  }

  /** Terminal `a` stays in front up to state n. */
  ghost predicate Stays(states: seq<State>, a: int, n: nat)
    requires n < |states|
  {
    forall i :: 0 <= i <= n ==> states[i].oldTerminal == a
  }

  // ----- A switch -----

  /** Terminal `a` is between naming `next` and loading it, and program `caller` is still loaded.  To
      leave the terminal is to lose the name. */
  ghost predicate Between(s: State, a: int, caller: nat, next: nat, stayed: bool) {
    && Shaped(s) && 0 <= a < TERMINALS && s.terminals[a].active && caller <= PROGRAMS
    && s.terminals[a].programId == (if stayed then next else caller)
    && if s.oldTerminal == a then s.cr3 == caller else !stayed && s.terminals[a].cr3 == caller
  }

  lemma StaysShaped(s: State, part: Part)
    requires CanDo(s, part)
    ensures Shaped(Do(s, part))
  {
    if part.Entry? && part.e.Select? {
      hide Switch;
      SwitchEffect(s, part.e.term);
    } else {
      hide Switch, Cleared;
    }
  }

  lemma StillBetween(s: State, part: Part, a: int, caller: nat, next: nat, stayed: bool)
    requires Between(s, a, caller, next, stayed) && CanDo(s, part) && (s.oldTerminal == a ==> ByKeyboard(part))
    ensures Between(Do(s, part), a, caller, next, stayed && Do(s, part).oldTerminal == a)
  {
    StaysShaped(s, part);
    if part.Entry? && part.e.Select? {
      hide Switch, GoodPage, FirstFree, Execute, Halt;
      SwitchEffect(s, part.e.term);
    } else {
      hide Switch, GoodPage, FirstFree, Video, SetVideo;
    }
  }

  /** What a switch does to the terminals' records and to the loaded pages. */
  lemma SwitchEffect(s: State, t: int)
    requires CanSwitch(s, t)
    ensures Shaped(Switch(s, t))
    ensures var s' := Switch(s, t);
            if !(0 <= t < TERMINALS) || t == s.oldTerminal then s' == s
            else
              var r := s.terminals[s.oldTerminal];
              && s'.oldTerminal == t
              && s'.terminals[s.oldTerminal] ==
                 r.(cr3 := s.cr3, kernelEsp := s.esp0, programId := s.cr3, x := s.screenX, y := s.screenY)
              && (forall u :: 0 <= u < TERMINALS && u != s.oldTerminal && u != t ==> s'.terminals[u] == s.terminals[u])
              && (s.terminals[t].active ==> s'.terminals[t] == s.terminals[t] && s'.cr3 == s.terminals[t].cr3)
  {
    SwitchShaped(s, t);
    if 0 <= t < TERMINALS && t != s.oldTerminal {
      if s.terminals[t].active {
        LaterVisit(s, t);
      } else {
        FirstVisit(s, t);
      }
    }
  }

  ghost predicate Left(s: State, s': State, t: nat)
    requires Shaped(s) && Shaped(s') && t < TERMINALS
  {
    var r := s.terminals[s.oldTerminal];
    && s'.oldTerminal == t
    && s'.terminals[s.oldTerminal] ==
       r.(cr3 := s.cr3, kernelEsp := s.esp0, programId := s.cr3, x := s.screenX, y := s.screenY)
    && forall u :: 0 <= u < TERMINALS && u != s.oldTerminal && u != t ==> s'.terminals[u] == s.terminals[u]
  }

  lemma FirstVisit(s: State, t: nat)
    requires CanSwitch(s, t) && t < TERMINALS && t != s.oldTerminal && !s.terminals[t].active
    ensures HasFreeSlot(s.openTasks) && Shaped(Switch(s, t)) && Left(s, Switch(s, t), t)
    ensures Switch(s, t).openTasks == s.openTasks[FirstFree(s.openTasks, 1) := 0]
  {
    SwitchShaped(s, t);
    hide Cleared, FirstFree, MapVideo, GoodPage, Video;
  }

  lemma LaterVisit(s: State, t: nat)
    requires CanSwitch(s, t) && t < TERMINALS && t != s.oldTerminal && s.terminals[t].active
    ensures Shaped(Switch(s, t)) && Left(s, Switch(s, t), t)
    ensures Switch(s, t).openTasks == s.openTasks
    ensures Switch(s, t).terminals[t] == s.terminals[t] && Switch(s, t).cr3 == s.terminals[t].cr3
  {
    SwitchShaped(s, t);
    hide Cleared, MapVideo, GoodPage, Video;
  }

  lemma SwitchShaped(s: State, t: int)
    requires CanSwitch(s, t)
    ensures Shaped(Switch(s, t))
  {
    hide Cleared;
  }

  lemma {:induction false} BetweenAll(states: seq<State>, parts: seq<Part>, a: int, caller: nat, next: nat, n: nat)
    requires Interlude(states, parts, a) && n <= |parts| && Between(states[0], a, caller, next, true)
    ensures Between(states[n], a, caller, next, Stays(states, a, n))
    decreases n
  {
    if n > 0 {
      hide Between, CanDo, Do, ByKeyboard;
      BetweenAll(states, parts, a, caller, next, n - 1);
      StillBetween(states[n - 1], parts[n - 1], a, caller, next, Stays(states, a, n - 1));
      assert states[n - 1 + 1] == Do(states[n - 1], parts[n - 1]);
    }
  }

  /** The keyboard's handler without a switch. */
  lemma EchoKeeps(s: State, part: Part)
    requires CanDo(s, part) && ByKeyboard(part) && Do(s, part).oldTerminal == s.oldTerminal
    ensures var s' := Do(s, part);
            s' == s.(vga := s'.vga, backing := s'.backing, screenX := s'.screenX, screenY := s'.screenY)
  {
    hide Cleared, FirstFree;
  }

  lemma {:induction false} StayingKeeps(states: seq<State>, parts: seq<Part>, a: int, n: nat)
    requires Interlude(states, parts, a) && n <= |parts| && Stays(states, a, n)
    ensures var s, s' := states[0], states[n];
            s' == s.(vga := s'.vga, backing := s'.backing, screenX := s'.screenX, screenY := s'.screenY)
    decreases n
  {
    if n > 0 {
      hide CanDo, Do, ByKeyboard;
      StayingKeeps(states, parts, a, n - 1);
      assert states[n - 1 + 1] == Do(states[n - 1], parts[n - 1]);
      EchoKeeps(states[n - 1], parts[n - 1]);
    }
  }

  /** Loading a program that was named before an interlude leaves it running in front exactly when its
      terminal stayed in front all along. */
  lemma LoadAfter(states: seq<State>, parts: seq<Part>, a: int, caller: nat, next: nat)
    requires Interlude(states, parts, a) && Between(states[0], a, caller, next, true)
    requires 1 <= next <= PROGRAMS && next != caller
    requires forall t :: 0 <= t < TERMINALS && t != a ==> states[0].terminals[t].programId != next
    ensures Shaped(states[|parts|])
    ensures Shaped(Load(states[|parts|], next))
    ensures RunsInFront(Load(states[|parts|], next)) <==> Stays(states, a, |parts|)
  {
    hide Stays;
    var n := |parts|;
    BetweenAll(states, parts, a, caller, next, n);
    if Stays(states, a, n) {
      StayingKeeps(states, parts, a, n);
    }
  }

  // ----- No switch -----

  /** A state in which the call has been finished, its process table given. */
  function Finish(s: State, next: nat, openTasks: seq<int>): State
    requires Shaped(s) && next <= PROGRAMS
  {
    Load(s, next).(openTasks := openTasks)
  }

  /** An interrupt without a switch may as well come when the call is finished. */
  lemma EchoLater(s: State, part: Part, next: nat, openTasks: seq<int>)
    requires CanDo(s, part) && ByKeyboard(part) && Do(s, part).oldTerminal == s.oldTerminal
    requires 1 <= next <= PROGRAMS && s.inForce == s.videoEntry[next] == Vga && |openTasks| == PROGRAMS + 1
    ensures Shaped(Do(s, part)) && Possible(Finish(s, next, openTasks), part.e)
    ensures Finish(Do(s, part), next, openTasks) == Step(Finish(s, next, openTasks), part.e)
  {
    StaysShaped(s, part);
    if part.e.Select? {
      SwitchEffect(s, part.e.term);
      NoSwitch(Finish(s, next, openTasks), part.e.term);
    }
    hide Switch, FirstFree;
  }

  /** So a call that is finished in its own terminal's time leaves three independent consoles. */
  lemma {:induction false} StayingRefines(states: seq<State>, parts: seq<Part>, a: int, next: nat, openTasks: seq<int>,
                                          n: nat)
    requires Interlude(states, parts, a) && n <= |parts| && Stays(states, a, n)
    requires Shaped(states[0]) && 1 <= next <= PROGRAMS && |openTasks| == PROGRAMS + 1
    requires states[0].inForce == states[0].videoEntry[next] == Vga
    requires exists d :: Refines(Finish(states[0], next, openTasks), d)
    ensures Shaped(states[n]) && exists d :: Refines(Finish(states[n], next, openTasks), d)
    decreases n
  {
    if n > 0 {
      hide Refines, CanDo, Do, ByKeyboard, Finish;
      StayingRefines(states, parts, a, next, openTasks, n - 1);
      StayingKeeps(states, parts, a, n - 1);
      assert states[n - 1 + 1] == Do(states[n - 1], parts[n - 1]);
      var finished := Finish(states[n - 1], next, openTasks);
      var d :| Refines(finished, d);
      EchoLater(states[n - 1], parts[n - 1], next, openTasks);
      StepFollows(finished, d, parts[n - 1].e);
    }
  }

  // ----- The two calls -----

  /** The caller is not the new program, nor any terminal's. */
  lemma NewProgramIsNew(s: State, d: Desk, slot: nat)
    requires Refines(s, d) && 1 <= slot <= PROGRAMS && s.openTasks[slot] == -1
    ensures s.terminals[s.oldTerminal].active && s.cr3 != slot
    ensures forall t :: 0 <= t < TERMINALS ==> s.terminals[t].programId != slot
  {
    TopsInRange(s, d);
    assert TerminalAgrees(s, d, s.oldTerminal);
    forall t | 0 <= t < TERMINALS ensures s.terminals[t].programId != slot {
      assert TerminalAgrees(s, d, t);
      assert d.views[t].Open? ==> Top(d.views[t]) in Stacks(d)[t] && Live(Stacks(d), Top(d.views[t]));
    }
    assert s.terminals[s.oldTerminal].programId == s.cr3;
  }

  /** A switch between the naming and the loading in `execute`: afterwards the new program is the current
      one of the terminal in front if and only if its terminal was never left; and then the kernel is
      three independent consoles again. */
  lemma ExecuteInterrupted(s: State, d: Desk, states: seq<State>, parts: seq<Part>)
    requires Refines(s, d) && HasFreeSlot(s.openTasks)
    requires Interlude(states, parts, s.oldTerminal) && states[0] == Claim(s)
    ensures Shaped(states[|parts|])
    ensures var after := Load(states[|parts|], FirstFree(s.openTasks, 1));
            && Shaped(after)
            && (RunsInFront(after) <==> Stays(states, s.oldTerminal, |parts|))
            && ((exists d' :: Refines(after, d')) <==> Stays(states, s.oldTerminal, |parts|))
  {
    var slot := FirstFree(s.openTasks, 1);
    NewProgramIsNew(s, d, slot);
    LoadAfter(states, parts, s.oldTerminal, s.cr3, slot);
    var after := Load(states[|parts|], slot);
    if Stays(states, s.oldTerminal, |parts|) {
      StepFollows(s, d, Exec(true));
      ExecuteInParts(s);
      OwnsVga(s, d, slot);
      assert Finish(states[0], slot, Claim(s).openTasks) == Execute(s);
      StayingRefines(states, parts, s.oldTerminal, slot, Claim(s).openTasks, |parts|);
      StayingKeeps(states, parts, s.oldTerminal, |parts|);
      assert Finish(states[|parts|], slot, Claim(s).openTasks) == after;
    }
    forall d' | Refines(after, d') ensures RunsInFront(after) { KernelInvariant(after, d'); }
  }

  /** The parent is the current program of no terminal. */
  lemma ParentIsWaiting(s: State, d: Desk)
    requires Refines(s, d) && s.openTasks[s.cr3] >= 1
    ensures var parent := s.openTasks[s.cr3];
            && 1 <= parent <= PROGRAMS && parent != s.cr3 && s.terminals[s.oldTerminal].active
            && forall t :: 0 <= t < TERMINALS ==> s.terminals[t].programId != parent
  {
    FrontParent(s, d);
    var stack := d.views[d.front].stack;
    var parent := stack[|stack| - 2];
    assert Stacks(d)[d.front] == stack && Distinct(stack) && parent in stack;
    assert Linked(s.openTasks, stack) && Link(s.openTasks, stack, |stack| - 2);
    TopsInRange(s, d);
    assert TerminalAgrees(s, d, s.oldTerminal);
    forall t | 0 <= t < TERMINALS ensures s.terminals[t].programId != parent {
      assert TerminalAgrees(s, d, t);
      assert d.views[t].Open? ==> Top(d.views[t]) in Stacks(d)[t];
      if t != d.front {
        assert parent !in Stacks(d)[t];
      }
    }
  }

  /** The same for `halt`. */
  lemma HaltInterrupted(s: State, d: Desk, states: seq<State>, parts: seq<Part>)
    requires Refines(s, d) && s.openTasks[s.cr3] >= 1
    requires Interlude(states, parts, s.oldTerminal) && states[0] == Resign(s)
    ensures Shaped(states[|parts|]) && s.openTasks[s.cr3] <= PROGRAMS
    ensures var after := Free(Load(states[|parts|], s.openTasks[s.cr3]), s.cr3);
            && Shaped(after)
            && (RunsInFront(after) <==> Stays(states, s.oldTerminal, |parts|))
            && ((exists d' :: Refines(after, d')) <==> Stays(states, s.oldTerminal, |parts|))
  {
    var parent, table := s.openTasks[s.cr3], s.openTasks[s.cr3 := -1];
    ParentIsWaiting(s, d);
    LoadAfter(states, parts, s.oldTerminal, s.cr3, parent);
    var after := Free(Load(states[|parts|], parent), s.cr3);
    if Stays(states, s.oldTerminal, |parts|) {
      StepFollows(s, d, Exit);
      HaltInParts(s);
      ParentOwnsVga(s, d);
      assert Finish(states[0], parent, table) == Halt(s);
      StayingRefines(states, parts, s.oldTerminal, parent, table, |parts|);
      StayingKeeps(states, parts, s.oldTerminal, |parts|);
      assert Finish(states[|parts|], parent, table) == after;
    }
    forall d' | Refines(after, d') ensures RunsInFront(after) { KernelInvariant(after, d'); }
  }

  lemma ParentOwnsVga(s: State, d: Desk)
    requires Refines(s, d) && s.openTasks[s.cr3] >= 1
    ensures s.openTasks[s.cr3] <= PROGRAMS && s.videoEntry[s.openTasks[s.cr3]] == Vga
  {
    FrontParent(s, d);
    ParentIsWaiting(s, d);
    var stack := d.views[d.front].stack;
    assert stack[|stack| - 2] in Stacks(d)[d.front];
    OwnsVga(s, d, s.openTasks[s.cr3]);
  }

  /** Whenever the new program's terminal can be left and come back to, doing so in between goes wrong: the
      new program runs, but its caller is on record as the program in front. */
  lemma LeftAndBack(s: State, d: Desk, t: int)
    requires Refines(s, d) && HasFreeSlot(s.openTasks) && 0 <= t < TERMINALS && t != s.oldTerminal
    requires CanSwitch(Claim(s), t) && CanSwitch(Switch(Claim(s), t), s.oldTerminal)
    ensures Shaped(Switch(Switch(Claim(s), t), s.oldTerminal))
    ensures var after := Load(Switch(Switch(Claim(s), t), s.oldTerminal), FirstFree(s.openTasks, 1));
            Shaped(after) && after.terminals[s.oldTerminal].programId == s.cr3 != after.cr3 && !RunsInFront(after)
  {
    var a, s0, slot := s.oldTerminal, Claim(s), FirstFree(s.openTasks, 1);
    NewProgramIsNew(s, d, slot);
    assert Between(s0, a, s.cr3, slot, true);
    hide Switch, Refines, FirstFree, Claim, Between, Load;
    var s1 := Switch(s0, t);
    SwitchEffect(s0, t);
    StillBetween(s0, Entry(Select(t)), a, s.cr3, slot, true);
    var s2 := Switch(s1, a);
    SwitchEffect(s1, a);
    StillBetween(s1, Entry(Select(a)), a, s.cr3, slot, false);
    LoadedWrong(s2, a, s.cr3, slot);
  }

  lemma LoadedWrong(s: State, a: int, caller: nat, next: nat)
    requires Between(s, a, caller, next, false) && s.oldTerminal == a && next != caller && next <= PROGRAMS
    ensures var after := Load(s, next);
            Shaped(after) && after.cr3 == next && after.terminals[a].programId == caller && !RunsInFront(after)
  {
  }

  /** For example the first program that the first shell starts. */
  lemma SwitchInsideExecute(s: State, page: seq<byte>, backing: seq<seq<byte>>, x: int, y: int)
    requires |page| == PAGE_BYTES
    requires |backing| == TERMINALS && forall t :: 0 <= t < TERMINALS ==> |backing[t]| == PAGE_BYTES
    requires s == Boot(page, backing, x, y)
    ensures Shaped(s) && HasFreeSlot(s.openTasks) && FirstFree(s.openTasks, 1) == 2 && s.oldTerminal == 0
    ensures CanSwitch(Claim(s), 1) && CanSwitch(Switch(Claim(s), 1), 0)
    ensures Shaped(Switch(Switch(Claim(s), 1), 0))
    ensures var after := Load(Switch(Switch(Claim(s), 1), 0), 2);
            Shaped(after) && after.cr3 == 2 && after.terminals[0].programId == 1 && !RunsInFront(after)
  {
    BootRefines(page, backing, x, y);
    BootTables(page, backing, x, y);
    hide Boot, Switch;
    SwitchEffect(Claim(s), 1);
    LeftAndBack(s, Desk([Open([1], Cleared(page), x, y), Closed, Closed], 0), 1);
  }

  lemma BootTables(page: seq<byte>, backing: seq<seq<byte>>, x: int, y: int)
    requires |page| == PAGE_BYTES
    requires |backing| == TERMINALS && forall t :: 0 <= t < TERMINALS ==> |backing[t]| == PAGE_BYTES
    ensures var s := Boot(page, backing, x, y);
            && Shaped(s) && s.openTasks == [-1, 0, -1, -1, -1, -1, -1] && s.cr3 == 1 && s.oldTerminal == 0
            && s.terminals[0].active && !s.terminals[1].active && FirstFree(s.openTasks, 1) == 2
            && HasFreeSlot(s.openTasks) && HasFreeSlot(s.openTasks[2 := 1]) && !s.newTerminalFlag
  {
    var s := Boot(page, backing, x, y);
    assert s.openTasks == [-1, 0, -1, -1, -1, -1, -1];
  }

  // ----- A race for a slot -----

  /** `execute` from the point where it has found a slot. */
  function StartIn(s: State, slot: nat): State
    requires Shaped(s) && 1 <= slot <= PROGRAMS
  {
    Load(ClaimSlot(s, slot), slot)
  }

  lemma StartInEffect(s: State, d: Desk, slot: nat)
    requires Refines(s, d) && 1 <= slot <= PROGRAMS
    ensures Shaped(s) && Shaped(StartIn(s, slot))
    ensures var s' := StartIn(s, slot);
            && s'.openTasks == s.openTasks[slot := s.cr3]
            && forall t :: 0 <= t < TERMINALS ==>
                 && s'.terminals[t].active == s.terminals[t].active
                 && s'.terminals[t].programId == if t == s.oldTerminal then slot else s.terminals[t].programId
  {
  }

  /** Where a taken slot is, and what the current program of that terminal is. */
  lemma WhoHas(s: State, d: Desk, slot: nat) returns (u: nat, i: nat)
    requires Refines(s, d) && 1 <= slot <= PROGRAMS && s.openTasks[slot] != -1
    ensures |d.views| == TERMINALS && u < TERMINALS && i < |Stacks(d)[u]| && Stacks(d)[u][i] == slot
    ensures s.terminals[u].active && s.terminals[u].programId == Stacks(d)[u][|Stacks(d)[u]| - 1]
    ensures Linked(s.openTasks, Stacks(d)[u]) && Distinct(Stacks(d)[u])
    ensures s.oldTerminal == u ==> s.cr3 == Stacks(d)[u][|Stacks(d)[u]| - 1]
    ensures 0 <= s.oldTerminal < TERMINALS && s.terminals[s.oldTerminal].active
  {
    assert Live(Stacks(d), slot);
    u :| 0 <= u < TERMINALS && slot in Stacks(d)[u];
    i :| 0 <= i < |Stacks(d)[u]| && Stacks(d)[u][i] == slot;
    assert TerminalAgrees(s, d, u) && TerminalAgrees(s, d, d.front);
  }

  lemma FreeSlotRefines(s: State, d: Desk, slot: nat)
    requires Refines(s, d) && 1 <= slot <= PROGRAMS && s.openTasks[slot] == -1
    ensures exists d' :: Refines(StartIn(s, slot), d')
  {
    var f := d.views[d.front];
    var d' := d.(views := d.views[d.front := f.(stack := f.stack + [slot])]);
    var s' := StartIn(s, slot);
    PushTable(s.openTasks, Stacks(d), d.front, slot);
    assert Stacks(d') == Stacks(d)[d.front := Stacks(d)[d.front] + [slot]];
    assert !Live(Stacks(d), slot);
    OwnsVga(s, d, slot);
    SameBackground(s, d, s', d');
    assert Refines(s', d');
  }

  /** From the top of a stack whose links above place i are intact, they lead down to place i. */
  lemma {:induction false} LeadsDown(openTasks: seq<int>, stack: seq<nat>, i: nat)
    requires |openTasks| == PROGRAMS + 1 && i < |stack|
    requires forall j :: i < j < |stack| ==> Link(openTasks, stack, j)
    ensures Ancestor(openTasks, stack[|stack| - 1], |stack| - 1 - i) == stack[i]
    decreases |stack|
  {
    var n := |stack| - 1;
    if i < n {
      assert Link(openTasks, stack, n);
      forall j | i < j < n ensures Link(openTasks, stack[..n], j) {
        assert Link(openTasks, stack, j);
      }
      LeadsDown(openTasks, stack[..n], i);
    }
  }

  /** The slot is some terminal's: then the new program is on the chains of two, or on its own twice. */
  lemma TakenSlotTangles(s: State, d: Desk, slot: nat)
    requires Refines(s, d) && 1 <= slot <= PROGRAMS && s.openTasks[slot] != -1
    ensures Shaped(StartIn(s, slot)) && !IsForest(StartIn(s, slot))
  {
    hide Refines, StartIn, IsForest, Linked, Distinct, Link, Ancestor, GoodPage, Stacks;
    StartInEffect(s, d, slot);
    var u, i := WhoHas(s, d, slot);
    var s', stack := StartIn(s, slot), Stacks(d)[u];
    StillLinked(s.openTasks, s'.openTasks, slot, stack, i);
    LeadsDown(s'.openTasks, stack, i);
    var k := |stack| - 1 - i;
    NextAncestor(s'.openTasks, slot, k);
    assert OnChain(s', s.oldTerminal, 0, slot);
    if u == s.oldTerminal {
      TwoPlaces(s', slot, u, 0, u, k + 1);
    } else {
      TwoPlaces(s', slot, s.oldTerminal, 0, u, k);
    }
  }

  lemma StillLinked(openTasks: seq<int>, openTasks': seq<int>, slot: nat, stack: seq<nat>, i: nat)
    requires |openTasks| == |openTasks'| == PROGRAMS + 1 && Linked(openTasks, stack) && Distinct(stack)
    requires forall p :: 0 <= p <= PROGRAMS && p != slot ==> openTasks'[p] == openTasks[p]
    requires i < |stack| && stack[i] == slot
    ensures forall j :: i < j < |stack| ==> Link(openTasks', stack, j)
  {
    forall j | i < j < |stack| ensures Link(openTasks', stack, j) {
      assert Link(openTasks, stack, j);
    }
  }

  lemma NextAncestor(openTasks: seq<int>, p: int, k: nat)
    requires |openTasks| == PROGRAMS + 1 && 1 <= p <= PROGRAMS
    ensures Ancestor(openTasks, p, 0) == p && Ancestor(openTasks, p, k + 1) == Ancestor(openTasks, openTasks[p], k)
  {
  }

  lemma TwoPlaces(s: State, p: nat, t: nat, k: nat, u: nat, j: nat)
    requires Shaped(s) && 1 <= p <= PROGRAMS && OnChain(s, t, k, p) && OnChain(s, u, j, p) && (t != u || k != j)
    ensures !IsForest(s)
  {
  }

  /** If a switch comes between the test of a slot and its linking, other programs may start and end in
      between.  The processes are a forest afterwards, and the kernel three independent consoles, if and
      only if nobody has the slot when it is linked. */
  lemma SlotRace(s: State, d: Desk, slot: nat)
    requires Refines(s, d) && 1 <= slot <= PROGRAMS
    ensures Shaped(StartIn(s, slot)) && (IsForest(StartIn(s, slot)) <==> s.openTasks[slot] == -1)
    ensures (exists d' :: Refines(StartIn(s, slot), d')) <==> s.openTasks[slot] == -1
  {
    StartInEffect(s, d, slot);
    if s.openTasks[slot] == -1 {
      FreeSlotRefines(s, d, slot);
    } else {
      TakenSlotTangles(s, d, slot);
    }
    hide IsForest, Refines;
    forall d' | Refines(StartIn(s, slot), d') ensures IsForest(StartIn(s, slot)) {
      KernelInvariant(StartIn(s, slot), d');
    }
  }

  /** For example: the first shell's `execute` has found slot 2 free when the keyboard opens a second
      terminal, whose shell takes slot 2, and comes back. */
  lemma SlotTakenTwice(s: State, page: seq<byte>, backing: seq<seq<byte>>, x: int, y: int)
    requires |page| == PAGE_BYTES
    requires |backing| == TERMINALS && forall t :: 0 <= t < TERMINALS ==> |backing[t]| == PAGE_BYTES
    requires s == Boot(page, backing, x, y)
    ensures Shaped(s) && HasFreeSlot(s.openTasks) && FirstFree(s.openTasks, 1) == 2
    ensures CanSwitch(s, 1) && CanSwitch(Switch(s, 1), 0)
    ensures var back := Switch(Switch(s, 1), 0);
            && Shaped(back) && back.openTasks[2] == 0
            && Shaped(StartIn(back, 2)) && !IsForest(StartIn(back, 2))
  {
    BootRefines(page, backing, x, y);
    BootTables(page, backing, x, y);
    var d := Desk([Open([1], Cleared(page), x, y), Closed, Closed], 0);
    hide Boot, Refines, Switch, Cleared, FirstFree, IsForest, StartIn;
    StepFollows(s, d, Select(1));
    var s1 := Switch(s, 1);
    var d1 :| Refines(s1, d1);
    SwitchEffect(s, 1);
    FirstVisit(s, 1);
    assert Possible(s1, Select(0));
    StepFollows(s1, d1, Select(0));
    var s2 := Switch(s1, 0);
    var d2 :| Refines(s2, d2);
    LaterVisit(s1, 0);
    TakenSlotTangles(s2, d2, 2);
  }
}
