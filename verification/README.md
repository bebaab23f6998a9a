# A verified model of a small teaching kernel and its programs

The repository is an x86 teaching kernel (`student-distrib/`) with a RAM file system, six program
slots and three text terminals, together with programs that run on it (`fish/`, `syscalls/`).  This
project models the parts that carry state, in the form the sources have, and proves what those parts
are for.  `dafny verify dfyconfig.toml` checks everything.

| module | models | main result |
|---|---|---|
| `Console`, `Kernel` | `execute`, `halt`, `terminal_switch` and what they share | every run of whole kernel entries is a run of three independent consoles |
| `Interrupts` | a terminal switch in the middle of `execute` or `halt` | exactly which switches break that |
| `FileSystem`, `Layout`, `Descriptors` | `read_data`, name lookup, `open`, `read`, `close` | under every interleaving of calls each descriptor is a cursor into a flat file |
| `Grep` | `do_one_file` | the reports for every file without NULs, and exactly when they are the lines with the pattern |
| `Blink`, `BlinkTiming` | the blinking-character engine | pool and list agree for ever; a closed form for the blinking |
| `Frames`, `Animation` | `add_frames` and the clock loop of `main` | every byte of the screen, at every tick, from the two files' text |
| `CommandLine` | the emulator's tokeniser and joiner | each undoes the other |
| `Scheduler` | the run queue | round robin visits every active task once per turn |
| `LineEditor` | key presses to one input line | the editor is a fold over key presses |
| `Lib` | `itoa`, `strrev`, `%#x`, `memmove` | numerals denote their value; moves are right for every overlap |

How the parts are built:

- Whatever the source updates in place is a class over arrays (`Kernel.Machine`, `Descriptors.Pcb`,
  `Blink.Engine`, `Scheduler.RunQueue`, `LineEditor.Editor`) or a method on an array.  Its methods are
  proved to compute a function on values (`Console.Switch`, `Descriptors.ReadStep`, `Blink.TickList`, ...);
  the theorems about runs are lemmas about those functions.
- `Console.Desk` is the independent statement of what the kernel promises: three consoles, each with a
  stack of programs, a screen and a cursor, and no pages, mappings or parent links.  `Console.Refines`
  relates the two.
- A program's video page is whatever its page table entry named when its page directory was last
  loaded (`State.inForce`).
- The timer does not interrupt: its line is never unmasked (`student-distrib/kernel.c:194`).  The keyboard does,
  also inside a system call: vector 0x80 is a trap gate (`student-distrib/idt.c:227`).  The steps of `Console` are
  whole entries into the kernel, so its theorems about runs are about runs in which a keyboard interrupt comes
  between entries.  `Interrupts` takes `execute` and `halt` apart and says exactly when one inside does harm.
- What the functions on values mean is stated apart from them, in bytes and numbers: what a cleared screen, a
  file system image, a scan code, a command line or a place on the screen is (`Console.BootScreen`,
  `Layout.ReadBack`, `LineEditor.PlainUpper`, `CommandLine.ArgumentsAre`, `Animation.PlaceShows` and others).
- The animation reads its files through the same `Pcb` that is proved to return the flat file, and adds
  its characters through the same `Engine` that is proved to keep a list; so does the search program.
  `Animation.Play` is therefore a statement from disk blocks to screen bytes.

Where the code does something other than its documentation or a user would expect, the model follows
the code, and a lemma says exactly when the two differ:

- `Interrupts.ExecuteInterrupted`, `Interrupts.HaltInterrupted`, `Interrupts.SwitchInsideExecute`: a terminal left after
  its new program has been named and before it is loaded forgets the name.
- `Interrupts.SlotRace`, `Interrupts.SlotTakenTwice`: a program started between the test of a slot and its linking can
  take the same slot.
- `Blink.AddAgrees`, `Blink.ZeroTwice`: location 0 passes the range check but also marks a node as free.
- `Grep.RightExactlyWhen`, `Grep.RightForEvery`: lines longer than the window are cut into pieces.
- `Grep.HighPattern`, `Grep.HighPatternMissed`, `Grep.EmptyPattern`: a pattern's first character is a signed `char`
  compared with an unsigned byte (`syscalls/ece391grep.c:42`), so one from 128 on is never found; nor is the empty pattern.
- `Grep.CutOnce`: the byte behind the window is not initialised, and one newline there cuts the file at one place.
- `FileSystem.ClampedInside`, `FileSystem.PastTheEnd`: an offset beyond the end of a file is not caught; no read on a
  descriptor has one (`Descriptors.ReadsInside`).
- `Descriptors.ReadOverruns`, `Descriptors.OneByteAsked`: reads of the terminal and of directories ignore the length asked for.
- `Descriptors.OpenAnswer`, `Descriptors.OpenLeaves`: opening an entry of unknown type fails and still uses up a descriptor.
- `Descriptors.DirectoriesShare`, `Descriptors.SecondNameRead`: all directory descriptors of all processes share one cursor.
- `Descriptors.NextProgram`, `Descriptors.SevenInherited`: a new program inherits descriptor 7 from the last one in its slot.
- `LineEditor.EnterHeldBack`, `LineEditor.EnterTakesLast`, `LineEditor.EraseUndoes`: what a full line does to Enter and to backspace.
- `LineEditor.NewlineLeftBehind`, `LineEditor.TypedBehindEnter`: keys pressed between Enter and the read leave a newline inside the line.
- `CommandLine.GetArgs`, `CommandLine.OneArgument`: a join that fills the buffer exactly writes its terminator behind it, and fails.
- `CommandLine.WordsAreRuns`, `CommandLine.BlankFirst`: a command that is blank or starts with a blank gets an empty first word.
- `Scheduler.AddThenRemove`, `Scheduler.RemoveIsExact`, `Scheduler.QueuedTwice`: a task can be added twice, and is then
  still queued when it has been removed.
- `Blink.SyncShowsOff`, `Blink.SyncDrawsWrong`: the character a sync draws at once is always the off character,
  because the conditional move at `fish/blink.S:282` never takes place.

## Model

| member | source | states |
|---|---|---|
| Console.FirstFree | student-distrib/systemcall.c:127-149 | the slot chosen is free and every lower slot from 1 on is taken |
| Console.FindTerminal | student-distrib/terminal.c:31-44 | the first terminal whose current program this is, or -1 when there is none |
| Console.StepRefines | student-distrib/systemcall.c:119-348 | whatever three independent consoles allow, the kernel can do, and the kernel's step leads to a state that agrees with theirs |
| Console.StepFollows | student-distrib/terminal.c:164-209 | conversely every step the kernel can take is a step of the three consoles |
| Console.ExecuteRefines | student-distrib/systemcall.c:119-236 | starting a program pushes it on the front console's stack and touches no other console, screen or cursor |
| Console.HaltRefines | student-distrib/systemcall.c:284-348 | ending a program pops the front stack, and a console's first program is started again in place |
| Console.OpenRefines | student-distrib/terminal.c:164-209 | switching to a console visited before only changes which console is in front: its screen, cursor and program are those it was left with |
| Console.ClosedRefines | student-distrib/terminal.c:164-187 | the first visit to a console starts the lowest free program there on a blank screen, with the cursor of the console left |
| Console.RunRefines | student-distrib/terminal.c:53-209 | every run of stores, cursor moves, whole executes, halts and switches is a run of three independent consoles, state by state |
| Console.BootRefines | student-distrib/kernel.c:167-196 | after boot one program runs in the first console on a blank screen, and the other two are closed |
| Console.ClearedIs | student-distrib/lib.c:18-27 | each of the 2000 cells becomes byte 32 with attribute 7; bytes 4000 to 4095 stay |
| Console.BootScreen | student-distrib/kernel.c:188 | so the screen is when the first shell starts |
| Console.FirstVisitScreen | student-distrib/terminal.c:173 | and when a terminal is visited for the first time, whatever was shown; the cursor is the old one |
| Console.EveryReachableState | student-distrib/systemcall.c:119-348 | in every state reached after boot by whole kernel entries the running program is the foreground one on its own kernel stack, pages are owned by the right program, and the parent links are a forest |
| Console.KernelInvariant | student-distrib/terminal.c:53-209 | the same for any state that agrees with some desk |
| Console.RunningIsForeground | student-distrib/systemcall.c:236 | the running program is the foreground terminal's, is found there, and the kernel stack pointer is 4 below the top of its own 8 KB block and in no other's |
| Console.VideoOwnership | student-distrib/paging.c:97-221 | a program's video page is the backing page of terminal t exactly when it is the current program of t and t is active in the background |
| Console.OneChild | student-distrib/systemcall.c:284-287 | a live program has at most one child, and a terminal's current program has none |
| Console.ChainEnds | student-distrib/systemcall.c:139 | following parent links from a current program walks down its stack and ends at 0 |
| Console.ProcessForest | student-distrib/systemcall.c:119-149 | a slot is live exactly when it is on the parent chain of some active terminal |
| Console.ForestIsDisjoint | student-distrib/systemcall.c:119-166 | chains of different terminals never meet, and no chain meets itself |
| Console.TableUnique | student-distrib/systemcall.c:119-149 | the process table is determined by the three stacks |
| Console.SwitchAwayAndBack | student-distrib/terminal.c:164-209 | leaving a terminal and coming back, with anything in between, restores its screen, cursor, running program and chain of callers |
| Console.MatchingHalt | student-distrib/systemcall.c:335-346 | an execute followed, after anything, by the halt of the program it started puts the caller back in front with the same callers behind it; if no other terminal was visited the whole process table is restored |
| Interrupts.ExecuteInParts | student-distrib/systemcall.c:127-236 | `execute` is the claiming of a slot followed by the loading of its program |
| Interrupts.HaltInParts | student-distrib/systemcall.c:335-346 | `halt` is the naming of the parent, its loading, and the freeing of the slot |
| Interrupts.LoadAfter | student-distrib/terminal.c:53-75 | a program named before any interlude and loaded after it runs as the foreground one if and only if its terminal stayed in front |
| Interrupts.ExecuteInterrupted | student-distrib/systemcall.c:166-236 | with anything between the naming and the loading in `execute`, other interrupted calls included, the new program is the foreground one afterwards if and only if its terminal was never left; and just then the kernel is three independent consoles again |
| Interrupts.HaltInterrupted | student-distrib/systemcall.c:335-346 | the same for the parent in `halt` |
| Interrupts.StayingRefines | student-distrib/terminal.c:268-390 | interrupts that only echo may as well come after the call |
| Interrupts.LeftAndBack | student-distrib/terminal.c:62 | from every state of three consoles, leaving the terminal in between and coming back puts the caller on record in the new program's place |
| Interrupts.SwitchInsideExecute | student-distrib/terminal.c:62 | so it is for the first program that the first shell starts |
| Interrupts.SlotRace | student-distrib/systemcall.c:129-139 | a program linked to a slot found free earlier leaves a forest, and three consoles, if and only if the slot is still free |
| Interrupts.SlotTakenTwice | student-distrib/systemcall.c:129-139 | a second terminal opened after the first shell's `execute` found slot 2 takes it |
| Kernel.CopyPage | student-distrib/lib.c:418-458 | the destination page becomes the source page |
| Kernel.Machine.constructor | student-distrib/paging.c:46-88 | the initial machine is `Console.Reset` on its memory |
| Kernel.Machine.Start | student-distrib/kernel.c:186-196 | the start-up code takes the machine to `Console.Start` of where it was |
| Kernel.Machine.Clear | student-distrib/lib.c:18-27 | the page in force becomes blank in its first 4000 bytes; no other page changes |
| Kernel.Machine.SetProgramPage | student-distrib/systemcall.c:571-613 | loading a page directory puts that program's video mapping in force |
| Kernel.Machine.FindTerminal | student-distrib/terminal.c:31-44 | the search loop computes `Console.FindTerminal` |
| Kernel.Machine.Execute | student-distrib/systemcall.c:119-236 | the whole machine becomes `Console.Execute` of what it was, or stays as it was when the file is no program |
| Kernel.Machine.Halt | student-distrib/systemcall.c:284-348 | the whole machine becomes `Console.Halt` of what it was |
| Kernel.Machine.SaveVideo | student-distrib/terminal.c:67-72 | the terminal's backing page becomes a copy of the page in force; nothing else changes |
| Kernel.Machine.RestoreVideo | student-distrib/terminal.c:197-202 | the page in force becomes a copy of the terminal's backing page; nothing else changes |
| Kernel.Machine.SetVideoEntry | student-distrib/paging.c:97-221 | only the named program's video entry changes, and for a number outside 1..6 none does |
| Kernel.Machine.SaveTerminal | student-distrib/terminal.c:53-75 | the whole machine becomes `Console.SaveTerminal` of what it was |
| Kernel.Machine.TerminalSwitch | student-distrib/terminal.c:164-209 | the whole machine becomes `Console.Switch` of what it was |
| FileSystem.ContentsAt | student-distrib/file_system.c:198-219 | byte i of the flat file is byte i mod 4096 of the file's data block i / 4096 |
| FileSystem.ClampedInside | student-distrib/file_system.c:203-213 | a read is kept inside the file exactly when its offset is not past the end |
| FileSystem.PastTheEnd | student-distrib/file_system.c:212-213 | an offset for which it is not |
| FileSystem.CopyBytes | student-distrib/file_system.c:215-240 | the byte loop that hops blocks fills the buffer with a slice of the flat file and writes nothing else |
| FileSystem.ReadData | student-distrib/file_system.c:189-242 | the count is the smaller of the length and what remains, the bytes are that slice of the flat file, the rest of the buffer is kept, and each failure leaves the buffer alone |
| FileSystem.Strncmp | student-distrib/lib.c:507-525 | 0 exactly when the two strings agree as C strings within n characters |
| FileSystem.ReadAnswers | student-distrib/file_system.c:203-213 | 0 exactly at the end of the file, -1 exactly elsewhere without the inode, a buffer or a length, and otherwise the smaller of the length and what remains |
| Layout.WordIs | student-distrib/file_system.c:200-201 | numbers on an image are four bytes, least significant first |
| Layout.ReadBack | student-distrib/file_system.c:198-231 | a file laid out byte by byte, with its length and block numbers in its inode and its bytes in the blocks they name behind the inodes, is read back as it is |
| Layout.ScatteredIsRead | student-distrib/file_system.c:198-231 | an image with two inodes and a file on blocks 258 and 0 |
| Layout.EntriesAre | student-distrib/file_system.c:143-148 | the number of entries, and each entry's name, kind and inode, are read from where they stand in block 0 |
| Layout.Lookup | student-distrib/file_system.c:120-155 | a name is found at the first entry listed with it, and not at all when none is |
| Layout.OpenedAndRead | student-distrib/systemcall.c:364-462 | a file listed and laid out on an image is opened by name on the lowest free descriptor, and a read returns its first bytes |
| FileSystem.ReadDentryByName | student-distrib/file_system.c:120-155 | the first directory entry with the name, or failure when none has it |
| FileSystem.FindEntry | student-distrib/file_system.c:143-153 | the entry found has the name, no earlier one has it, and failure means that none does |
| Descriptors.OpenAnswer | student-distrib/systemcall.c:398-462 | the lowest free of 2..7 at the start of the named file; -1 exactly for an empty or unknown name, an unknown type or a full table; and exactly an unknown type uses up a descriptor on failure |
| Descriptors.OpenLeaves | student-distrib/systemcall.c:450-453 | an image on which `open` fails and leaves descriptor 2 taken |
| Descriptors.OpenThenRead | student-distrib/systemcall.c:424-435 | a read after opening a directory delivers the next name with its terminator and length, or nothing at the end; after opening the clock, nothing |
| Descriptors.DirectoryInOrder | student-distrib/file_system.c:390-404 | reads of a directory deliver each name in order, then nothing once, then start again |
| Descriptors.ReadFails | student-distrib/systemcall.c:364-372 | a read fails exactly on a descriptor that is out of range, 1 or free, or when it asks for nothing before a file's end, and then changes nothing |
| Descriptors.TerminalDelivers | student-distrib/terminal.c:421-429 | a read of descriptor 0 delivers the typed line, its terminator and its length |
| Descriptors.CloseAnswer | student-distrib/systemcall.c:470-488 | `close` succeeds exactly on an open one of 2..7, which then can be neither read nor closed; the others stay |
| Descriptors.ReadsInside | student-distrib/file_system.c:293-309 | no read on a descriptor starts past the end of its file |
| Descriptors.ReadOverruns | student-distrib/file_system.c:390-404 | a read stores more than was asked for exactly when it is on the terminal or on a directory and what it delivers has at least that length without its terminator |
| Descriptors.OneByteAsked | student-distrib/file_system.c:390-404 | a directory from which one byte is asked and two are stored |
| Descriptors.OthersStay | student-distrib/systemcall.c:364-488 | no call changes a descriptor other than the one it works on |
| Descriptors.TargetKeepsCursor | student-distrib/file_system.c:275-312 | a call keeps its own descriptor's bytes-returned-so-far equal to the file up to its position |
| Descriptors.StepKeepsCursors | student-distrib/systemcall.c:364-488 | after any call every descriptor has returned exactly the first `filePosition` bytes of its file since it was opened |
| Descriptors.RunKeepsCursors | student-distrib/systemcall.c:364-488 | so it is under every interleaving of open, read and close |
| Descriptors.FirstProgram | student-distrib/systemcall.c:168-178 | the first program in a slot starts in such a state |
| Descriptors.NextProgram | student-distrib/systemcall.c:168-178 | so does every later one, with the terminal open and 2..6 free; 2..7 are all free exactly when the last program left 7 free |
| Descriptors.SevenInherited | student-distrib/systemcall.c:177-178 | after a program that leaves 2..7 open the next one starts with 7 taken |
| Descriptors.DirectoriesShare | student-distrib/file_system.c:390-404 | a read on one descriptor changes what another returns exactly when both are directories, the directory is not empty, and the entries at the shared cursor and behind it do not both exist with the same name |
| Descriptors.SecondNameRead | student-distrib/file_system.c:390-404 | an image and two descriptors for which it does |
| Descriptors.FileRead | student-distrib/file_system.c:293-311 | a read returns the next bytes of the file, fewer than asked only at its end, and advances only that descriptor |
| Descriptors.Pcb.Renew | student-distrib/systemcall.c:168-178 | the table becomes the last program's with 0 and 1 open on the terminal and 2..6 freed; 7, all file positions and the shared directory cursor stay |
| Descriptors.Pcb.Open | student-distrib/systemcall.c:398-462 | the table and the answer are those of `Descriptors.OpenStep` |
| Descriptors.Pcb.Read | student-distrib/systemcall.c:364-372 | the table, the answer and every byte of the buffer are those of `Descriptors.ReadStep` |
| Descriptors.Pcb.ReadTerminal | student-distrib/terminal.c:421-429 | once a line has been typed, all of it and a terminator land in the buffer |
| Descriptors.Pcb.ReadFile | student-distrib/file_system.c:275-312 | the same for regular files, which are looked up by name on each read |
| Descriptors.Pcb.ReadDirectory | student-distrib/file_system.c:390-404 | the same for directories: the next name with its terminator, then one empty answer, then from the start |
| Descriptors.Pcb.Close | student-distrib/systemcall.c:470-488 | the table and the answer are those of `Descriptors.CloseStep` |
| Descriptors.ReadOn | syscalls/ece391grep.c:21 | what programs rely on: the next piece of the file lands at the chosen place of the buffer and nothing else changes |
| Text.LinesAreTheFile | syscalls/ece391grep.c:28-30 | the lines contain no newline, and joined by newlines they are the file |
| Text.JoiningIs | syscalls/ece391grep.c:30 | joining puts byte 10 between lines |
| Text.LinesUnique | syscalls/ece391grep.c:28-30 | no other newline-free pieces join to the file |
| Grep.Strncmp | syscalls/ece391support.c:35-46 | 0 exactly when the whole pattern stands at that place of the line |
| Grep.StrcpyDown | syscalls/ece391support.c:14-17 | the overlapping copy moves the text to the front of the window and writes nothing behind it |
| Grep.SearchLine | syscalls/ece391grep.c:40-49 | a line is found exactly when it contains the pattern and the pattern starts with a byte below 128 |
| Grep.CarryLine | syscalls/ece391grep.c:33-38 | a partial line without NULs moves whole to the front of the window; with one it moves up to there, and the rest of the window stays |
| Grep.ScanWindow | syscalls/ece391grep.c:27-55 | one pass reports lines such that its reports, followed by those of what it carries over and of what is unread, are the reports of what was there before |
| Grep.Pass | syscalls/ece391grep.c:27-57 | the same when the byte behind the window is a newline, which uses up a full window |
| Grep.SearchFile | syscalls/ece391grep.c:19-58 | the loops end, and report exactly what `Outcome` says of the flat file, wherever windows and blocks end; without a newline behind the window that is `Found` |
| Grep.CutOnce | syscalls/ece391grep.c:33 | with one, it is what is found in front of the end of the first full window that does not end with a newline, and behind it |
| Grep.FoundAppend | syscalls/ece391grep.c:27-57 | behind a newline the reports start afresh |
| Grep.DoOneFile | syscalls/ece391grep.c:9-66 | the same from the file's name: status -1 and no report exactly when the file cannot be opened, and no descriptor is left in use |
| Grep.ContainsIs | syscalls/ece391grep.c:42-43 | a line contains a pattern when it is something, the pattern and something |
| Grep.ContainingIs | syscalls/ece391grep.c:42-49 | the lines that contain a pattern are picked one by one, in order |
| Grep.PiecesIs | syscalls/ece391grep.c:30-56 | what is taken for a line: up to the next newline, but at most 1024 bytes |
| Grep.CutPointIs | syscalls/ece391grep.c:33 | that place is the first multiple of 1024 with no newline in front of it |
| Grep.RightExactlyWhen | syscalls/ece391grep.c:20-60 | for every file and pattern the reports are exactly the lines that contain the pattern, once each and in order, if and only if each of those lines has at most 1024 bytes and the pattern, if it is in any, is not empty and starts below 128 |
| Grep.RightForEvery | syscalls/ece391grep.c:20-60 | the reports are right for every pattern that starts below 128 if and only if every line of more than 1024 bytes consists of bytes from 128 on |
| Grep.PiecesAreLines | syscalls/ece391grep.c:31-53 | cutting lines at 1024 bytes changes no report as long as the lines cut do not contain the pattern |
| Grep.HighPattern | syscalls/ece391grep.c:40-42 | a pattern that starts with a byte from 128 on is reported for no line; that is right exactly when no line contains it |
| Grep.HighPatternMissed | syscalls/ece391grep.c:40-42 | a file and a pattern for which it is wrong |
| Grep.EmptyPattern | syscalls/ece391grep.c:40-42 | the empty pattern, which every line contains, is reported for none |
| Blink.DistinctSize | fish/fish.c:161-171 | a list of different nodes fills the pool exactly when it visits every node |
| Blink.AddAgrees | fish/blink.S:105-184 | adding keeps pool and list in agreement if and only if it is refused or the location is not 0; then it prepends, and it is refused exactly for a location off the screen or a full pool |
| Blink.ZeroTwice | fish/fish.c:161-171 | two adds at location 0 reuse one node, and no finite list remains |
| Blink.LinkedOnce | fish/blink.S:359-367 | the NEXT links determine the list |
| Blink.FindList | fish/blink.S:351-379 | the cell found is at the location and was added after every other cell there; -1 means there is none |
| Blink.AddThenRemove | fish/blink.S:187-237 | what was added last is found first, and a remove takes back an add exactly when the add was accepted or the location was empty |
| Blink.AddIs | fish/blink.S:131-162 | an accepted add puts the user's cell in front of the list, on, with its whole on length to go; up to 2000 cells below location 2000 are accepted |
| Blink.RemoveFirst | fish/blink.S:206-217 | a remove takes out the first cell at the location, wherever it is, and closes the list behind it |
| Blink.SyncIs | fish/blink.S:267-275 | the second cell takes over the first one's lengths, countdown and status, keeps its place and characters, and no other cell changes |
| Blink.TickIs | fish/blink.S:64-86 | a countdown of 2 to 32768 goes down by one; any other turns the cell over and restarts from the other length |
| Blink.TickShows | fish/blink.S:49-99 | a place where cells expire shows the new character of the last of them on the list |
| Blink.TickLeaves | fish/blink.S:49-99 | a place where none expires is left alone |
| Blink.SyncShowsOff | fish/blink.S:277-285 | the character a sync draws is the one the synced cell shows exactly when the cell it follows is off or its own two characters are the same |
| Blink.SyncDrawsWrong | fish/blink.S:277-285 | two cells for which it is not |
| Blink.Engine.constructor | fish/fish.c:28 | a cleared pool is an empty list |
| Blink.Engine.Allocate | fish/fish.c:161-171 | the first node whose location is 0, or none |
| Blink.Engine.Add | fish/blink.S:105-184 | the pool, the head, the screen and the answer after an add, for every location; and for locations other than 0 the list is the old one with the new cell in front |
| Blink.Engine.FindHelper | fish/blink.S:351-379 | the walk ends at the first cell with that location |
| Blink.Engine.Find | fish/blink.S:302-349 | the cell added last at the location, or -1 |
| Blink.Engine.Sync | fish/blink.S:240-300 | the second cell takes over the first one's lengths, countdown and status; the list is otherwise the same; one character is drawn |
| Blink.Engine.Remove | fish/blink.S:187-237 | the list loses exactly the first cell at the location and its node becomes free; -1 and no change when there is none |
| Blink.Engine.TickNode | fish/blink.S:64-88 | one node's countdown: 16-bit decrement, signed comparison, and on expiry the other character and length |
| Blink.Engine.Tick | fish/blink.S:49-99 | every cell of the list ticks once, in order, and the screen is repainted where a cell expired; the links stay |
| BlinkTiming.ClosedForm | fish/blink.S:64-86 | n ticks after it is added, a cell is n modulo its period into that period |
| BlinkTiming.OnOrOff | fish/blink.S:64-86 | it is on exactly when n modulo the period is less than the effective on length, where a length outside 1..32768 counts as 1 |
| BlinkTiming.ShownAt | fish/blink.S:49-99 | a cell that alone holds its location is shown there on every later tick, whatever else is on the list |
| BlinkTiming.UntouchedAt | fish/blink.S:49-99 | a screen byte under no cell never changes |
| BlinkTiming.InStep | fish/blink.S:267-275 | after a sync the two cells have the same countdown, status and lengths on every later tick |
| Frames.NextChar | fish/fish.c:103-117 | one read per column until the line ends; the end of the file ends the line |
| Frames.AddRow | fish/fish.c:100-131 | one row of both files is read to the end of the longer line, with one add, in order of columns, for each place where either file shows something |
| Frames.EndRow | fish/fish.c:133-145 | a file that has ended is closed and stays ended; the other goes on with its next line |
| Frames.AddRows | fish/fish.c:99-148 | the merge ends for all pairs of files, and its adds are exactly `AllRequests`, row by row |
| Frames.OpenOne | fish/fish.c:92-97 | a file is open at its start exactly when it is in the directory and one of 2..7 was free |
| Frames.OpenBoth | fish/fish.c:92-97 | both files are open on descriptors of their own exactly when both are in the directory and two of 2..7 were free |
| Frames.AddFrames | fish/fish.c:79-149 | the same from the files' names; the program is halted, with nothing added, exactly when they cannot both be opened |
| Animation.SmallFits | fish/fish.c:123-127 | two frames of at most 25 rows, the last ended by a newline or not, and 40 columns fit the screen |
| Animation.RowsSorted | fish/fish.c:99-148 | for frames that fit, the adds go up strictly through the screen, none at location 0 or off it, each for a visible place |
| Animation.Complete | fish/fish.c:123-128 | every visible place is asked for |
| Animation.AllPainted | fish/blink.S:164-169 | after the adds the list is the requests, newest first, and each shows its first character |
| Animation.Animates | fish/fish.c:79-149 | n ticks after the adds every place visible in either frame shows frame 0's character if n mod 30 is below 15 and frame 1's otherwise, and every other byte is unchanged |
| Animation.PlaceShows | fish/fish.c:119-128 | for each row and column on the screen, byte 160 * row + 2 * col + 80 shows frame 0's character when n mod 30 is below 15 and frame 1's otherwise, a missing one as byte 32, and is left alone where both are blank |
| Animation.OthersStay | fish/blink.S:43-47 | colours, the first 40 places and what is behind the screen never change |
| Animation.Play | fish/fish.c:23-44 | the same for the program itself, from the two files on disk to the bytes of the screen, whenever both can be opened after the clock; otherwise, and only then, it is halted and the screen is unchanged |
| Animation.NewProgramPlays | fish/fish.c:34-36 | with descriptors 2..6 free both can be opened exactly when both are in the directory |
| CommandLine.CutJoined | syscalls/ece391emulate.c:131-157 | cutting the join of any words without separators gives those words |
| CommandLine.ArgumentsSurvive | syscalls/ece391emulate.c:76-157 | joining the arguments of any command and cutting the result gives the same arguments |
| CommandLine.WordsAreRuns | syscalls/ece391emulate.c:81-98 | a one-line command denotes exactly its maximal runs of non-blanks, if and only if it is not empty and does not start with a blank |
| CommandLine.BlankFirst | syscalls/ece391emulate.c:81-98 | a command for which it does not |
| CommandLine.ArgumentsAre | syscalls/ece391emulate.c:88-98 | how a text is cut, case by case: blanks are skipped, a newline where a word could start ends it, and a word ends at a blank, a newline or the end |
| CommandLine.WordsAre | syscalls/ece391emulate.c:81-98 | the first word is what comes before any blank or newline, even if that is nothing |
| CommandLine.JoiningIs | syscalls/ece391emulate.c:143-151 | joining puts byte 32 between words |
| CommandLine.CutIs | syscalls/ece391emulate.c:78-100 | where the words then stand in the buffer, each ended by a byte 0 |
| CommandLine.CutWord | syscalls/ece391emulate.c:94-97 | one more word is noted and ended, earlier words stay, and the scan goes on behind it |
| CommandLine.CutArguments | syscalls/ece391emulate.c:88-98 | the argument loop ends and cuts exactly the arguments |
| CommandLine.Tokenise | syscalls/ece391emulate.c:68-100 | commands of more than 1023 characters are refused; otherwise `args` points to exactly the words, the first behind `./`, ends with a null entry and overruns neither array |
| CommandLine.EndWord | syscalls/ece391emulate.c:81-86 | a word is scanned to its end and ended with a NUL, and the scan goes on behind the separator |
| CommandLine.GetArgs | syscalls/ece391emulate.c:131-157 | 0 exactly when the joined arguments fit with their terminator, and then the buffer holds them; the byte behind the buffer becomes NUL exactly when some of the arguments, joined, fill the buffer, and no other byte there changes |
| CommandLine.FillsIsFailure | syscalls/ece391emulate.c:141-154 | a call that writes behind its buffer fails |
| CommandLine.OneArgument | syscalls/ece391emulate.c:140-143 | with one argument it does so exactly when the argument is as long as the buffer, for example 3 bytes into 3 but not 4 into 3 |
| Scheduler.NearestTask | student-distrib/scheduler.c:16-25 | the choice is the nearest active task after the current one |
| Scheduler.NoOtherTask | student-distrib/scheduler.c:27-31 | with no other active task the current one stays |
| Scheduler.Fair | student-distrib/scheduler.c:13-43 | for any number of slots, k switches among k active tasks visit each exactly once and return to the first |
| Scheduler.NearestActive | student-distrib/scheduler.c:16-31 | for slots and terminals themselves: the choice is the nearest slot with a task of an active terminal, and the current slot when there is none |
| Scheduler.FairTasks | student-distrib/scheduler.c:13-43 | as many switches as there are tasks of active terminals give each exactly one turn and end where they began |
| Scheduler.InactiveSkipped | student-distrib/scheduler.c:19 | three tasks of which the inactive one is never chosen |
| Scheduler.AddIs | student-distrib/scheduler.c:84-91 | the first empty slot from the current one on takes the task, and a full queue stays |
| Scheduler.FirstIs | student-distrib/scheduler.c:123-127 | a remove empties the first slot with the task |
| Scheduler.AddThenRemove | student-distrib/scheduler.c:74-128 | tasks stay unique exactly when the new one was not queued or there is no room; removing a new task restores the queue |
| Scheduler.RemoveIsExact | student-distrib/scheduler.c:116-128 | removing takes off that task unless it was queued twice, and no other task |
| Scheduler.QueuedTwice | student-distrib/scheduler.c:74-128 | a queue to which a task is added twice and still holds it when it has been removed |
| Scheduler.RunQueue.SwitchTask | student-distrib/scheduler.c:13-43 | the search loop ends at the nearest slot with a task of an active terminal, and changes nothing when there is none |
| Scheduler.RunQueue.Add | student-distrib/scheduler.c:74-91 | the first empty slot from the current one on takes the task, if there is one |
| Scheduler.RunQueue.Remove | student-distrib/scheduler.c:116-128 | the first slot with the task is emptied, if there is one |
| LineEditor.Editor.KeyPressed | student-distrib/terminal.c:268-390 | for every scan code the line and the modifiers are those of `KeyStep`, and the terminal to switch to is the one the key means |
| LineEditor.Editor.BackspacePressed | student-distrib/terminal.c:515-521 | the line loses its last character, if it has one |
| LineEditor.Editor.KeyboardRead | student-distrib/terminal.c:533-549 | the caller gets exactly the line and a terminator, and the line is emptied |
| LineEditor.PlainUpper | student-distrib/terminal.c:77-96 | the two upper rows of the keyboard, character by character |
| LineEditor.PlainLower | student-distrib/terminal.c:77-96 | the two lower rows |
| LineEditor.PlainOthers | student-distrib/terminal.c:77-118 | the other keys, most of which type nothing |
| LineEditor.ShiftedUpper | student-distrib/terminal.c:120-139 | the upper rows with shift |
| LineEditor.ShiftedLower | student-distrib/terminal.c:120-139 | the lower rows with shift |
| LineEditor.ShiftedOthers | student-distrib/terminal.c:120-155 | the other keys with shift |
| LineEditor.LettersAre | student-distrib/terminal.c:330-335 | a letter is a capital exactly when one of shift and caps lock is on |
| LineEditor.OthersAre | student-distrib/terminal.c:340-347 | any other key types what is on it, or with shift what is above, whatever caps lock is |
| LineEditor.CommandKeys | student-distrib/terminal.c:302-328 | Alt with F1, F2 or F3 let go selects terminal 0, 1 or 2; control-L empties the line; other keys with control and other releases do nothing |
| LineEditor.ModifierKeys | student-distrib/terminal.c:281-299 | shift, control and alt are on while held; caps lock changes when let go |
| LineEditor.ActionsAre | student-distrib/terminal.c:353-371 | what each of these does to a line of up to 128 characters |
| LineEditor.TypingAccumulates | student-distrib/terminal.c:346-375 | typing a text on an empty line gives the text, up to 128 characters |
| LineEditor.TypedThenRead | student-distrib/terminal.c:276-280 | with Enter behind it the line is the text, up to 127 characters, and a newline |
| LineEditor.NewlineByEnter | student-distrib/terminal.c:276-375 | a newline that was not in the line before is put last, by Enter without shift or control |
| LineEditor.NewlineLeftBehind | student-distrib/terminal.c:346-371 | something comes to stand behind a newline exactly when the line has ended, is not full, and a character or Enter is pressed |
| LineEditor.TypedBehindEnter | student-distrib/terminal.c:346-371 | keys for which it does: a, Enter, b |
| LineEditor.EnterHeldBack | student-distrib/terminal.c:276-280 | Enter with shift or control leaves the line alone exactly when it is not full |
| LineEditor.EnterTakesLast | student-distrib/terminal.c:275-279 | a full line from which control and Enter take the last character |
| LineEditor.EraseUndoes | student-distrib/terminal.c:351-375 | backspace takes back the last key exactly when there was room for it |
| Lib.DigitsAre | student-distrib/lib.c:214 | the digits are 0 to 9 and A to Z, in order |
| Lib.ValueIs | student-distrib/lib.c:232-237 | each further digit multiplies the value by the radix and adds its own |
| Lib.TwoNumerals | student-distrib/lib.c:211-247 | 255 in hexadecimal is FF, and 6 in binary is 110 |
| Lib.DigitsDenote | student-distrib/lib.c:211-247 | the digits denote the number, without a leading zero unless the number is 0 |
| Lib.NumeralUnique | student-distrib/lib.c:211-247 | there is no other numeral for it |
| Lib.DigitsShort | student-distrib/lib.c:211-247 | a number below 2 to the k has at most k digits in any radix |
| Lib.Strrev | student-distrib/lib.c:253-269 | the string is reversed in place and nothing else is written |
| Lib.Itoa | student-distrib/lib.c:211-247 | for every 32-bit number and radix 2..36 the buffer holds its digits and a terminator, within 33 bytes |
| Lib.PrintHex | student-distrib/lib.c:88-98 | exactly eight hexadecimal digits with the number's value |
| Lib.Memmove | student-distrib/lib.c:469-491 | the destination holds the old source bytes and every other byte is kept, for every overlap |

## Left out

- Boot, segment and interrupt tables, exception handlers, interrupt controller, timer, clock and VGA ports: device registers without a property worth stating.
- Keyboard interrupts inside a kernel entry other than at the two places `Interrupts` is about: `terminal_switch` runs with interrupts off, and the other entries touch this state only by stores and cursor moves.
- Saved stack pointers, frame pointers and interrupt frames: the model says which program runs, not where it resumes. `prev_pcb` and `parent_pid` are written and never read by `halt`.
- A seventh live program: the slot search reads past the process table, so a free slot in 1..6 is a precondition (`Console.HasFreeSlot`) of each start.
- The parsing of a command and the loading of a program by `execute`: they become the event's `loadable`; `terminal_switch` is modelled with a loadable shell.
- Run-queue edits inside `execute` and `halt`: they look up a terminal before it is assigned; `Scheduler` models the queue by itself, with tasks that are not null.
- Descriptor tables of other processes: `Descriptors` is about one slot's table. `halt` closes the descriptors of the program it returns to (`student-distrib/systemcall.c:338-344`), in that program's table.
- Kernel.Machine.constructor: the contents of the backing pages after boot are left open; no console shows them before they are overwritten.
- Where `terminal_write` and the key echo put characters: screen output is arbitrary stores and cursor moves within the page.
- FileSystem.ReadData: a valid inode's file is shorter than 1023 full blocks, names blocks inside the image, and the offset is not past its end; `FileSystem.ClampedInside` says what the last of these is needed for.
- FileSystem.ReadDentryByName: names have at most 31 characters; a longer one overruns the local copy.
- Descriptors.Pcb.Read: the waiting for a typed line and for the clock is left out; the line is a parameter and a clock read returns 0. A descriptor that has no operations cannot be read: the source calls through a null pointer.
- Descriptors.Pcb.constructor: it stands for the memory of a slot; `Descriptors.FirstProgram` assumes that memory no program has used holds no operations.
- `write`, `getargs`, `vidmap` and the file helper that starts programs: each only forwards to something modelled or to a device.
- Grep.DoOneFile: files and patterns without NUL bytes, a regular file or a missing one. The reports are the lines themselves, without the file name and punctuation around them. The walk over the directory is not modelled. What is reported when a line with a NUL is carried over depends on what the window held before, down to uninitialised bytes (`Grep.CarryLine`).
- Frames.AddFrames: both names are regular files or missing; the halt of a program that cannot open its files is a result, not an effect.
- Animation.Play: the setting up of the video page, the setting of the clock's rate, the clock reads between ticks, and what `main` does after its first loop of ticks, are left out.
- Blink.Engine.Sync: the two locations are parameters; the source takes them from the halves of one word.
- Blink.Engine.Add: copies from and to user memory cannot fail here.
- LineEditor.Editor.KeyPressed: lookups in the 128-entry tables above 127 are taken as 0; the screen echo, and the line buffers of the terminals not in front, are left out.
- LineEditor.Editor.KeyboardRead: the caller's buffer has room for the line and its terminator.
- CommandLine.Tokenise: `fork`, `execv` and `wait` after the cutting are left out.
- CommandLine.GetArgs: the memory is assumed to go on for at least one byte behind the `nbytes` of the buffer.
- Lib.Memmove: the direction flag, which the downward move leaves set, is not modelled.
- Small user programs (`hello`, `testprint`, `pingpong`, `counter`, `sigtest`) and the rest of the library: nothing beyond single bodies.
