/**
 The kernel's globals and the code that changes them, proved to take exactly the steps of
 `Console.Step`.  A physical page is a byte array; virtual address 0xB8000 reaches whichever
 page the mapping in force names.
 */
module Kernel {
  import opened Bytes
  import opened Console

  /** `memcpy` of one page. */
  method CopyPage(dest: array<byte>, src: array<byte>)
    requires dest.Length == src.Length == PAGE_BYTES
    modifies dest
    ensures dest[..] == old(src[..])
  {
    for i := 0 to PAGE_BYTES
      invariant dest[..i] == old(src[..])[..i]
      invariant src == dest || src[..] == old(src[..])
      invariant src == dest ==> dest[..] == old(dest[..])
    {
      dest[i] := src[i];
    }
  }

  lemma InitialTables(openTasks: seq<int>, terminals: seq<Terminal>, videoEntry: seq<Page>)
    requires |openTasks| == |videoEntry| == PROGRAMS + 1 && |terminals| == TERMINALS
    requires forall p :: 0 <= p <= PROGRAMS ==> openTasks[p] == -1 && videoEntry[p] == Vga
    requires forall t :: 0 <= t < TERMINALS ==> terminals[t] == Terminal(0, 0, 0, 0, 0, t == 0)
    ensures openTasks == seq(PROGRAMS + 1, _ => -1) && videoEntry == seq(PROGRAMS + 1, _ => Vga)
    ensures terminals == seq(TERMINALS, t => Terminal(0, 0, 0, 0, 0, t == 0))
  {
  }

  lemma ResetIs(s: State, page: seq<byte>, x: int, y: int)
    requires |page| == PAGE_BYTES && |s.backing| == TERMINALS
    requires forall t :: 0 <= t < TERMINALS ==> |s.backing[t]| == PAGE_BYTES
    requires s.openTasks == seq(PROGRAMS + 1, _ => -1) && s.videoEntry == seq(PROGRAMS + 1, _ => Vga)
    requires s.terminals == seq(TERMINALS, t => Terminal(0, 0, 0, 0, 0, t == 0)) && s.vga == page
    requires s.oldTerminal == 0 && !s.newTerminalFlag && s.cr3 == 0 && s.inForce == Vga && s.esp0 == MB_8
    requires s.screenX == x && s.screenY == y
    ensures s == Reset(page, s.backing, x, y) && Shaped(s)
  {
  }

  class Machine {
    const openTasks: array<int>
    const terminals: array<Terminal>
    const videoEntry: array<Page>
    const vga: array<byte>
    const term0: array<byte>
    const term1: array<byte>
    const term2: array<byte>
    var oldTerminal: int
    var newTerminalFlag: bool
    var cr3: nat
    var inForce: Page
    var esp0: int
    var screenX: int
    var screenY: int

    ghost predicate Valid()
      reads this, openTasks, terminals, videoEntry, vga, term0, term1, term2
    {
      && vga != term0 && vga != term1 && vga != term2 && term0 != term1 && term0 != term2 && term1 != term2
      && vga.Length == term0.Length == term1.Length == term2.Length == PAGE_BYTES
      && Shaped(Abs())
    }

    ghost function Abs(): State
      reads this, openTasks, terminals, videoEntry, vga, term0, term1, term2
    {
      State(openTasks[..], terminals[..], oldTerminal, newTerminalFlag, cr3, inForce, videoEntry[..], esp0,
            screenX, screenY, vga[..], [term0[..], term1[..], term2[..]])
    }

    /** `paging_initialize` and `terminal_init`. */
    constructor (page: seq<byte>, x: int, y: int)
      requires |page| == PAGE_BYTES
      ensures Valid() && Abs() == Reset(page, Abs().backing, x, y)
    {
      hide GoodPage, Reset;
      openTasks := new int[PROGRAMS + 1](_ => -1);
      terminals := new Terminal[TERMINALS](t => Terminal(0, 0, 0, 0, 0, t == 0));
      videoEntry := new Page[PROGRAMS + 1](_ => Vga);
      vga := new byte[PAGE_BYTES](i requires 0 <= i < PAGE_BYTES => page[i]);
      term0 := new byte[PAGE_BYTES];
      term1 := new byte[PAGE_BYTES];
      term2 := new byte[PAGE_BYTES];
      oldTerminal, newTerminalFlag, cr3, inForce, esp0 := 0, false, 0, Vga, MB_8;
      screenX, screenY := x, y;
      new;
      assert vga[..] == page;
      InitialTables(openTasks[..], terminals[..], videoEntry[..]);
      ResetIs(Abs(), page, x, y);
    }

    /** The rest of the kernel's `entry`: `clear`, and the first shell. */
    method Start()
      requires Valid() && HasFreeSlot(openTasks[..])
      modifies this, openTasks, terminals, vga, term0, term1, term2
      ensures Valid() && Abs() == Console.Start(old(Abs()))
    {
      hide Cleared, Console.Execute, HasFreeSlot;
      Clear();
      var ok := Execute(true);
    }

    method VideoPage() returns (page: array<byte>)
      requires Valid()
      ensures page == if inForce.Vga? then vga else if inForce.term == 0 then term0
                      else if inForce.term == 1 then term1 else term2
    {
      page := if inForce.Vga? then vga else if inForce.term == 0 then term0
              else if inForce.term == 1 then term1 else term2;
    }

    method Clear()
      requires Valid()
      modifies vga, term0, term1, term2
      ensures Valid() && Abs() == SetVideo(old(Abs()), Cleared(Video(old(Abs()))))
      ensures |Video(Abs())| == |Video(old(Abs()))| == 4096
      ensures forall c :: 0 <= c < 2000 ==> Video(Abs())[2 * c] == 32 && Video(Abs())[2 * c + 1] == 7
      ensures forall i :: 4000 <= i < 4096 ==> Video(Abs())[i] == Video(old(Abs()))[i]
    {
      ClearedIs(Video(Abs()));
      var page := VideoPage();
      for i := 0 to SCREEN_BYTES / 2
        invariant forall j :: 0 <= j < PAGE_BYTES ==>
          page[j] == if j >= 2 * i then old(page[j]) else if j % 2 == 0 then SPACE else ATTRIB
        invariant page != vga ==> vga[..] == old(vga[..])
        invariant page != term0 ==> term0[..] == old(term0[..])
        invariant page != term1 ==> term1[..] == old(term1[..])
        invariant page != term2 ==> term2[..] == old(term2[..])
      {
        page[2 * i] := SPACE;
        page[2 * i + 1] := ATTRIB;
      }
      assert page[..] == Cleared(old(page[..]));
    }

    /** A store through the video page. */
    method Put(offset: nat, b: byte)
      requires Valid() && offset < PAGE_BYTES
      modifies vga, term0, term1, term2
      ensures Valid() && Abs() == Step(old(Abs()), Event.Put(offset, b))
    {
      var page := VideoPage();
      page[offset] := b;
      assert page[..] == old(page[..])[offset := b];
    }

    method SetCursor(x: int, y: int)
      requires Valid()
      modifies `screenX, `screenY
      ensures Valid() && Abs() == Step(old(Abs()), MoveCursor(x, y))
    {
      screenX, screenY := x, y;
    }

    method SetProgramPage(program: nat)
      requires Valid() && program <= PROGRAMS
      modifies `cr3, `inForce
      ensures Valid() && Abs() == LoadCr3(old(Abs()), program)
    {
      cr3, inForce := program, videoEntry[program];
    }

    method FindTerminal(program: int) returns (t: int)
      requires Valid()
      ensures t == Console.FindTerminal(terminals[..], program)
    {
      for i := 0 to 3
        invariant forall u :: 0 <= u < i ==> terminals[u].programId != program
      {
        if terminals[i].programId == program {
          return i;
        }
      }
      return -1;
    }

    method Execute(loadable: bool) returns (ok: bool)
      requires Valid() && (loadable ==> HasFreeSlot(openTasks[..]))
      modifies this, openTasks, terminals
      ensures Valid() && ok == loadable
      ensures Abs() == if loadable then Console.Execute(old(Abs())) else old(Abs())
    {
      if !loadable {
        return false;
      }
      var current := cr3;
      var slot := 1;
      while slot < 8 && openTasks[slot] != -1
        invariant 1 <= slot <= PROGRAMS
        invariant FirstFree(openTasks[..], slot) == FirstFree(openTasks[..], 1)
      {
        slot := slot + 1;
      }
      if newTerminalFlag {
        openTasks[slot] := 0;
        newTerminalFlag := false;
      } else {
        openTasks[slot] := current;
      }
      terminals[oldTerminal] := terminals[oldTerminal].(programId := slot);
      SetProgramPage(slot);
      esp0 := MB_8 - KB_8 * (slot - 1) - PREV;
      ok := true;
    }

    method Halt()
      requires Valid() && 0 <= openTasks[cr3] <= PROGRAMS
      modifies this, openTasks, terminals
      ensures Valid() && Abs() == Console.Halt(old(Abs()))
    {
      var current := cr3;
      var parent := openTasks[current];
      if parent == 0 {
        return;
      }
      terminals[oldTerminal] := terminals[oldTerminal].(programId := parent);
      SetProgramPage(parent);
      openTasks[current] := -1;
      esp0 := MB_8 - KB_8 * (parent - 1) - PREV;
    }

    method BackingPage(t: nat) returns (page: array<byte>)
      requires t < TERMINALS
      ensures page == if t == 0 then term0 else if t == 1 then term1 else term2
    {
      page := if t == 0 then term0 else if t == 1 then term1 else term2;
    }

    method SaveVideo(t: nat)
      requires Valid() && t < TERMINALS
      modifies term0, term1, term2
      ensures Valid() && Abs() == old(Abs()).(backing := old(Abs()).backing[t := Video(old(Abs()))])
    {
      var page := VideoPage();
      var saved := BackingPage(t);
      CopyPage(saved, page);
    }

    method RestoreVideo(t: nat)
      requires Valid() && t < TERMINALS
      modifies vga, term0, term1, term2
      ensures Valid() && Abs() == SetVideo(old(Abs()), old(Abs()).backing[t])
    {
      var page := VideoPage();
      var saved := BackingPage(t);
      CopyPage(page, saved);
    }

    /** `video_mapping` and `non_video_mapping`. */
    method SetVideoEntry(program: int, page: Page)
      requires Valid() && GoodPage(page)
      modifies videoEntry
      ensures Valid() && Abs() == old(Abs()).(videoEntry := MapVideo(old(Abs()).videoEntry, program, page))
    {
      if 1 <= program <= PROGRAMS {
        videoEntry[program] := page;
      }
    }

    method SaveTerminal()
      requires Valid()
      modifies terminals, videoEntry, term0, term1, term2
      ensures Valid() && Abs() == Console.SaveTerminal(old(Abs()))
    {
      var t := oldTerminal;
      terminals[t] := terminals[t].(cr3 := cr3, kernelEsp := esp0, programId := cr3, x := screenX, y := screenY);
      SaveVideo(t);
      SetVideoEntry(terminals[t].programId, Backing(t));
    }

    /** The first part of `terminal_switch`: save the terminal in front, and clear the screen. */
    method LeaveFor(t: nat)
      requires Valid() && t < TERMINALS
      modifies `oldTerminal, terminals, videoEntry, vga, term0, term1, term2
      ensures Valid()
      ensures var left := Console.SaveTerminal(old(Abs())).(oldTerminal := t);
              Abs() == SetVideo(left, Cleared(Video(left)))
    {
      hide Cleared, Console.SaveTerminal;
      SaveTerminal();
      oldTerminal := t;
      Clear();
    }

    /** The last part of `terminal_switch`, for a terminal visited before. */
    method BackTo(t: nat)
      requires Valid() && t < TERMINALS && terminals[t].cr3 <= PROGRAMS
      modifies this, videoEntry, vga, term0, term1, term2
      ensures Valid()
      ensures var s, to := old(Abs()), old(Abs()).terminals[t];
              var mapped := s.(
                videoEntry := MapVideo(s.videoEntry, to.programId, Vga),
                screenX := to.x, screenY := to.y);
              var back := LoadCr3(mapped, to.cr3);
              Abs() == SetVideo(back, back.backing[t]).(esp0 := KernelStackTop(to.programId))
    {
      var to := terminals[t];
      SetVideoEntry(to.programId, Vga);
      SetCursor(to.x, to.y);
      SetProgramPage(to.cr3);
      RestoreVideo(t);
      esp0 := MB_8 - KB_8 * (terminals[t].programId - 1) - PREV;
    }

    method TerminalSwitch(t: int)
      requires Valid() && CanSwitch(Abs(), t)
      modifies this, openTasks, terminals, videoEntry, vga, term0, term1, term2
      ensures Valid() && Abs() == Switch(old(Abs()), t)
    {
      hide Cleared;
      if t < 0 || t > 2 || oldTerminal == t {
        return;
      }
      LeaveFor(t);
      var to := terminals[t];
      if !to.active {
        terminals[t] := to.(active := true);
        newTerminalFlag := true;
        var ok := Execute(true);
        return;
      }
      BackTo(t);
    }
  }
}
