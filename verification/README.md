# A verified model of the kernel's core

The kernel runs three virtual terminals on one x86 machine. Each terminal has a shell in a fixed process slot, and
programs nest on top of it; a timer switches between terminals; one VGA page and three backing pages are to act as
three screens; programs stream files out of a read-only file system. This project models those parts, and the counter
and text machinery under them, and proves what they are for.

| Modules | What they hold |
|---|---|
| `Bytes`, `Arithmetic` | bytes, C strings, words; division with remainder |
| `FileSystem`, `Grep` | `read_data`, `read_file`, `read_directory`, name lookup, and `cat`, `ls` and `grep` streaming through them |
| `ProcessTable`, `Kernel` | the process table as a state machine, and `execute`, `halt` and `pit_handler` as methods that update it in place |
| `ProcessStacks`, `ProcessRefinement`, `ProcessRuns`, `ProcessBoot` | a machine of nested calls; the table does exactly what it does, over every run from power on |
| `Screen`, `Consoles`, `VideoDriver` | one screen as a window on unbounded paper; the remapped pages as independent screens; the code in place over flat memory |
| `LineEdit`, `KeyboardDriver` | each terminal's half-typed line, and the buffers the keyboard handler copies about |
| `Rtc` | one hardware clock shared out as a clock for each terminal |
| `BlinkList`, `BlinkPool` | blinking characters, and the linked list in a fixed pool that holds them |
| `Numbers` | `itoa`, `strrev`, `%#x`, `%d` |
| `Arguments`, `CommandLine` | splitting and joining argument vectors; the kernel's own reading of a command |

A module that updates state in place has a class or array methods whose `ensures` equate the new state with a step of a
value-level machine; the theorems are about that machine and its runs.

## Modelling choices

- A handler is one atomic step. `putc` re-enables interrupts before `keyboardputc` restores the mapping
  (student-distrib/lib.c:291); an interrupt arriving there is outside the model.
- A saved esp/ebp pair is an opaque `Context`. The number of terminals and of process slots are parameters, the base
  shells being the pids below the number of terminals; there are at most 128 slots because the PCB keeps its parent in
  a signed byte. Before boot the PCBs are arbitrary, except that their parent fields are in range.
- Terminals are numbered from 0 (the kernel's `currentTerminal` and `recentTermChoice` count from 1).
- A byte is a `char`, and C strings are sequences up to a NUL. 16-bit and 32-bit limits are written out where they
  matter (blink countdowns, printed numbers, the 10-bit page frame).
- A file-system image is well formed: a file's last block index is below 1023, the blocks it can reach exist, and
  directory names are 32 bytes. Position plus request does not overflow.
- A program is loaded at 0x48000 in its 4 MB page, as at 0x08048000 in the source, and the memory of the model goes on
  past the page's end: the load asks for 4 MB (student-distrib/systemCall.c:243-244).
  `FileSystem.LoadStaysInPageIff` says which files keep it inside.
- Uninitialised local buffers (`conv_buf`, `data`) hold arbitrary bytes. `grep` needs `data[1024]` not to be a newline.

## Where the code and its comments disagree

The model follows the code.

- `execute` files a new process under the terminal on screen, `halt` and the timer work on the scheduled one
  (student-distrib/systemCall.c:60, 235). Parent links, slots and return pairs stay sound all the same, over every run
  (`ProcessRuns.RunRefines`). Two things do not: the memory in place, which `ProcessRuns.InPlaceIff` and
  `ProcessRuns.StaysInPlaceIff` show to be the running process's exactly when the last launch was made on screen or a
  tick or a halt came after it (a case: `ProcessBoot.OffScreenLaunchMisplaces`); and the context a terminal comes back
  to, which `ProcessRuns.ResumesWherePreemptedIff` shows to be its own exactly when no program was started meanwhile
  with that terminal on screen, or the slot taken held the same pair (a case: `ProcessBoot.StalePairResumed`).
- An F-key pressed without Alt records a choice without switching (student-distrib/keyboard.c:478-495), and the next
  switch then puts a line by under the wrong terminal, while Enter clears another's line. `LineEdit.SwitchKeepsIff` and
  `LineEdit.EnterKeepsOthersIff` give the exact conditions, `LineEdit.FKeyWithoutAltMovesLine` and
  `LineEdit.EnterAfterPlainFKeyErases` cases.
- A program halting on one terminal clears the line entered on whichever terminal is visible
  (student-distrib/systemCall.c:78-79, student-distrib/terminal.c:67-69). `LineEdit.HaltKeepsIff` says exactly when a
  halt keeps what a terminal has waiting, `LineEdit.WaitsIff` when a whole run does, and
  `LineEdit.HaltElsewhereLosesLine` is a case.
- `terminal_read` waits for the scheduled terminal's Enter but copies the visible terminal's line
  (student-distrib/terminal.c:97-103). What is entered on a terminal is a fold of that terminal's own events
  (`LineEdit.EnteredIsFold`), and `LineEdit.TypedLineRoundTrip` says exactly when a program gets its own line;
  `LineEdit.OffScreenReadGetsAnother` is a case in which it does not.
- The comments say a virtual clock waits `freq_count` interrupts; it waits one more (student-distrib/rtc.c:48-54, 77):
  `Rtc.ReadsTakeExactly`.
- The kernel's argument string starts after the last space, which the comment calls the first
  (student-distrib/systemCall.c:173-186): `CommandLine.KeptIsAllIff` says when that is the same text. There is one
  argument buffer for all terminals, rewritten by every call of `execute`, failing ones too: `CommandLine.OwnArgumentIff`
  says exactly when a program finds its own argument there, `CommandLine.AnotherCallTakesArgument` is a case.
- Location 0 marks a free slot of the blink pool, and yet is accepted as a location: `BlinkPool.AddThreadsIff` says
  that adding keeps the list a list if and only if the location is not 0, and `BlinkPool.StaysListedIff` that over a run
  there is a list after every step if and only if no call takes a slot for location 0. The theorems about runs are about
  the runs without one.
- `ls` stops at an empty name, which reads as the end of the directory: `FileSystem.ListingCompleteIff`, and
  `FileSystem.EmptyNameCuts` is a case.
- The unclamped load can run past the user page: `FileSystem.LoadPastThePage` is a case.

## Model

| member | source | states |
|---|---|---|
| ProcessBoot.FromPowerOn | student-distrib/scheduling.c:63-142 | from power on, through boot and any run: every context resumed is the nested-call machine's, the parent chains partition the slots in use, and the page frame and esp0 are the running process's if and only if the run's last launch, tick or halt of a program was not an off-screen launch |
| ProcessRuns.RunRefines | student-distrib/systemCall.c:30-330 | over every interleaving of execute, halt, ticks and terminal switches, the table stands for per-terminal stacks of calls, and each handler resumes exactly the context the stack machine says |
| ProcessRefinement.StepSimulates | student-distrib/systemCall.c:30-330 | the same for one handler: same effect, and the new table represents the new stacks |
| ProcessRefinement.LaunchSimulates | student-distrib/systemCall.c:219-313 | starting a program pushes one call on the terminal on screen, whichever runs, and disturbs no other |
| ProcessRefinement.HaltSimulates | student-distrib/systemCall.c:30-107 | halting pops one call and resumes the pair saved by the execute that made it; a base shell restarts |
| ProcessRefinement.TickSimulates | student-distrib/scheduling.c:63-142 | a tick saves the preempted context with the process it leaves and resumes the one saved with the process it comes to |
| ProcessStacks.StackStepProper | student-distrib/systemCall.c:219-265 | no event ever gives one slot to two calls, or takes a shell's slot |
| ProcessRuns.TableChains | student-distrib/systemCall.c:59-65 | following parent fields from each terminal's current pid reaches its shell in finitely many steps; the chains are disjoint and cover exactly the slots in use; the parent array agrees with the PCBs |
| ProcessRuns.ChainReachesShell | student-distrib/systemCall.c:260-265 | the chain passes through no other shell on its way |
| ProcessRuns.ChainsCover | student-distrib/systemCall.c:222-229 | a slot is marked used if and only if it is on some terminal's chain |
| ProcessRuns.BracketRestores | student-distrib/systemCall.c:59-107 | an execute and its matching halt, with anything at all on all terminals between, restore the entries of the terminal it was filed under, free the slot and resume the pair the execute saved |
| ProcessRuns.PrefixKept | student-distrib/systemCall.c:234-236 | calls below a depth a run never goes under are untouched by it |
| ProcessRuns.UntilTurn | student-distrib/scheduling.c:67-82 | ticks visit terminals in turn, and until its turn comes round only a launch onto a terminal changes the pair that waits there |
| ProcessRuns.ResumesExactly | student-distrib/scheduling.c:71-82 | over every round of ticks with anything in it, the tick that comes back loads the context saved when the terminal was last preempted, or, if a program was started with it on screen, what that program's slot already held |
| ProcessRuns.ResumesWherePreemptedIff | student-distrib/scheduling.c:120-140 | so it loads the terminal's own context if and only if nothing was started onto it meanwhile, or the slot last taken held that very pair |
| ProcessRuns.NoneTakenIff | student-distrib/systemCall.c:234-236 | nothing is started onto a terminal in a run if and only if no program is started while it is on screen |
| ProcessBoot.StalePairResumed | student-distrib/scheduling.c:120-140 | a run from power on in which a terminal resumes what a slot held before boot |
| ProcessRuns.AddressSpace | student-distrib/scheduling.c:120-128 | while frame 2 + pid and esp0 8 MB - 8 KB * pid of the running pid are in place, it is live, and no other live process shares either |
| ProcessRuns.LaunchInPlaceIff | student-distrib/systemCall.c:234-239 | a launch leaves the right memory in place if and only if the visible terminal is the scheduled one |
| ProcessRuns.InPlaceIff | student-distrib/scheduling.c:120-128 | over any run, the right memory is in place at the end if and only if the last launch, tick or halt of a program left it so: every tick does |
| ProcessRuns.StaysInPlaceIff | student-distrib/systemCall.c:234-239 | it is in place after every step if and only if every program is started with the scheduled terminal visible |
| ProcessBoot.OffScreenLaunchMisplaces | student-distrib/systemCall.c:234-239 | a run from power on that puts the wrong memory in place |
| ProcessRuns.SlotsShareNoMemory | student-distrib/systemCall.c:22-24 | different pids have disjoint program pages and kernel stacks |
| ProcessBoot.Boot | student-distrib/scheduling.c:85-119 | from power on, the first shell and one tick a terminal leave one shell on every terminal, the first on screen and resumed where it was preempted; other slots are untouched |
| ProcessBoot.TickBoots | student-distrib/scheduling.c:87-110 | each boot tick starts the next terminal's shell in its own slot |
| ProcessBoot.MainBoots | student-distrib/kernel.c:175-177 | kernel_main's execute takes slot 0 for the first shell |
| Kernel.Machine.Execute | student-distrib/systemCall.c:188-330 | in place: it enters a program if and only if the last file of the name is in range and starts with 0x7F E L F and a slot is free; then it takes the lowest free slot, files it under the terminal on screen and enters at bytes 24 to 27; -1 for a missing name or a file that is no executable, 0 for a full table when the name is there, and then nothing at all changes |
| ProcessTable.ExecuteDecides | student-distrib/systemCall.c:188-330 | the same of the execute step, over the image and the table |
| Kernel.Machine.Probe | student-distrib/systemCall.c:188-218 | the checks pass if and only if the last file of the name is executable and a slot is free; 0 if and only if the name is there and the table full, otherwise -1 |
| Kernel.Machine.AnyFree | student-distrib/systemCall.c:196-206 | the scan says -1 if and only if every slot is in use |
| Kernel.Machine.Allocate | student-distrib/systemCall.c:219-232 | the lowest free slot is taken and nothing else changes; -1 if and only if none is free |
| Kernel.Machine.CheckMagic | student-distrib/systemCall.c:208-218 | accepts exactly the files that start with 0x7F E L F |
| Kernel.Machine.Load | student-distrib/systemCall.c:243-247 | the load takes the file rounded up to a block, gets its header, and fails only for an inode out of range |
| Kernel.Machine.Start | student-distrib/systemCall.c:234-313 | from the slot taken on, exactly the launch, and it cannot fail |
| Kernel.Machine.SetCurrent | student-distrib/systemCall.c:234-239 | the visible terminal's entries and the page frame |
| Kernel.Machine.FillPcb | student-distrib/systemCall.c:258-313 | the new PCB, the context saved in its parent, and esp0 |
| Kernel.Machine.Halt | student-distrib/systemCall.c:30-107 | in place, exactly the halt step |
| Kernel.Machine.Preempt | student-distrib/scheduling.c:66-82 | the preempted context goes to the PCB of the terminal left |
| Kernel.Machine.ResumeScheduled | student-distrib/scheduling.c:111-141 | maps and resumes the scheduled terminal's process, ending boot if it has not ended |
| Kernel.Machine.PitHandler | student-distrib/scheduling.c:63-142 | in place, exactly the tick step |
| Consoles.RunRefines | student-distrib/scheduling.c:43-55 | over every run, boot and F-keys without Alt included, both page-table entries lead to the scheduled terminal's screen (the VGA page if and only if it is visible), and the consoles act as independent screens |
| Consoles.StepRefines | student-distrib/lib.c:222-316 | each event keeps that mapping and changes at most the one screen it names |
| Consoles.SwitchKeepsScreens | student-distrib/paging.c:213-231 | switching keeps every terminal's cells and cursor |
| Consoles.PutKeepsOthers | student-distrib/lib.c:222-292 | a character changes only the screen and cursor of the terminal it is for |
| Consoles.ClearKeepsOthers | student-distrib/lib.c:27-48 | clearing changes the visible screen only, whatever is mapped |
| Consoles.TickRefines | student-distrib/scheduling.c:84-119 | a tick remaps and, while booting, shows a cleared terminal; no other screen changes |
| Consoles.RunShowing | student-distrib/lib.c:222-316 | a started terminal's screen stays the end of its own text since it was last cleared, over any run |
| Consoles.ConsolesAreIndependent | student-distrib/kernel.c:153-177 | from power on, boot included: the mapping invariant holds, and each started terminal shows the last 25 rows of exactly the text printed to it since it was last cleared, whatever the others print and however the user switches |
| Screen.WindowOverPaper | student-distrib/lib.c:254-287 | for any backspace-free text, the grid and cursor are the end of that text laid out on unbounded paper with eager wrap at 80 |
| Screen.PutCharShows | student-distrib/lib.c:254-287 | one character on the screen is one character on the paper |
| Screen.ScrollShows | student-distrib/lib.c:269-287 | scrolling drops the oldest row shown and adds a blank one |
| Screen.OffScreenKept | student-distrib/lib.c:27-48 | printing and clearing leave the cells past the 2000 on screen as they were |
| Screen.PlainTextLayout | student-distrib/lib.c:261-267 | text without line breaks stands on the paper in order, 80 characters to a row |
| VideoDriver.Terminals.CopyRowUp | student-distrib/lib.c:274-277 | one row's characters moved up, in place |
| VideoDriver.Terminals.ScrollUp | student-distrib/lib.c:270-283 | the in-place row copy is a true shift of the page and touches nothing off it |
| VideoDriver.Terminals.Advance | student-distrib/lib.c:254-268 | the cell written and where the cursor goes |
| VideoDriver.Terminals.PrintAt | student-distrib/lib.c:254-287 | `putc` on a page is the screen step |
| VideoDriver.Terminals.Putc | student-distrib/lib.c:222-292 | through the mapping in force, with the scheduled or visible cursor |
| VideoDriver.Terminals.KeyboardPutc | student-distrib/lib.c:298-316 | echo goes to the visible screen while its program reads, and the mapping is put back |
| VideoDriver.Terminals.SetPagingScheduling | student-distrib/scheduling.c:43-55 | both entries follow the scheduled terminal |
| VideoDriver.Terminals.TerminalChange | student-distrib/paging.c:213-231 | the pages swapped and the mapping restored |
| VideoDriver.Terminals.FKeyPress | student-distrib/keyboard.c:475-496 | the choice is always recorded, the switch made only with Alt |
| VideoDriver.Terminals.ClearScreen | student-distrib/lib.c:27-48 | the visible page blanked and its cursor home |
| VideoDriver.Terminals.PitHandler | student-distrib/scheduling.c:63-119 | the video part of a tick, boot included |
| VideoDriver.Terminals.VidmapPage | student-distrib/systemCall.c:512-516 | the entry `vidmap` hands out |
| LineEdit.LineIsFold | student-distrib/keyboard.c:306-366 | over any run, a terminal's half-typed line is the fold of the keys typed while it was visible, and nothing stale lies past it |
| LineEdit.OnlySinceEnter | student-distrib/keyboard.c:335-351 | and only of those since its last Enter |
| LineEdit.StepEdits | student-distrib/keyboard.c:306-420 | a key edits the visible terminal's line only; every cell at or past an index stays NUL |
| LineEdit.TypingIsTheText | student-distrib/keyboard.c:306-328 | up to 127 characters typed are the line, in order |
| LineEdit.KeyLaws | student-distrib/keyboard.c:306-420 | Backspace undoes a character; the 128th is dropped; Space is a space and Tab up to four; Enter leaves nothing |
| LineEdit.FKeyChooses | student-distrib/keyboard.c:475-496 | an F-key records its choice and the one before, and shows the terminal if and only if Alt is down |
| LineEdit.StepFlags | student-distrib/keyboard.c:335-351 | after any event a terminal's flag is up if and only if the event is Enter with that terminal on screen, or it was up and the event is neither a read nor a halt there |
| LineEdit.FlagIsFold | student-distrib/terminal.c:96-99 | over any run the flag is the fold of that law, from the events and the terminal on screen alone |
| LineEdit.SpacesLine | student-distrib/keyboard.c:402-420 | Tab adds four spaces or as many as fit |
| LineEdit.SwitchKeepsLines | student-distrib/keyboard.c:548-557 | a switch keeps every terminal's line, index and entered line |
| LineEdit.SwitchKeepsIff | student-distrib/keyboard.c:50-74 | it does so if and only if the terminal last chosen is the visible one, or both were put by with the same contents |
| LineEdit.EnterKeepsOthersIff | student-distrib/keyboard.c:131-146 | Enter keeps every other terminal's line if and only if the terminal last chosen is the visible one, or its save area is empty |
| LineEdit.EnterAfterPlainFKeyErases | student-distrib/keyboard.c:131-146 | a case in which Enter on one terminal turns another's character into a NUL |
| LineEdit.FKeyWithoutAltMovesLine | student-distrib/keyboard.c:478-495 | a case in which a line moves to another terminal |
| LineEdit.HaltKeepsIff | student-distrib/systemCall.c:33-79 | a halt keeps a terminal's entered line and flag if and only if it is not that terminal's own flag going down, and it clears no other line while the terminal is visible |
| LineEdit.StepWaitsIff | student-distrib/keyboard.c:335-351 | an event leaves an entered line waiting if and only if it does not enter another, read or halt there, or clear it |
| LineEdit.WaitsIff | student-distrib/keyboard.c:552-556 | over a run an entered line and its flag stay put throughout if and only if no event disturbs them |
| LineEdit.TypedLineWaits | student-distrib/terminal.c:82-112 | an undisturbed line waits with its newline: a read of up to 127 bytes of it reports min(n + 1, nbytes + 1) |
| LineEdit.EnteredIsFold | student-distrib/keyboard.c:335-351 | over any run, what is entered on a terminal is the fold of the events on it alone |
| LineEdit.LastEnteredIs | student-distrib/keyboard.c:335-351 | that fold is the line the keys before its last Enter make, or nothing if a program halted there later |
| LineEdit.ReadTakesLastEntered | student-distrib/terminal.c:97-111 | over any run, a read takes exactly the line last entered on the terminal on screen, or NULs if there is none |
| LineEdit.TypedLineRoundTrip | student-distrib/terminal.c:82-112 | from the start: what waits after Enter is exactly what the keys typed on that terminal make, and a newline; its program reads it if the terminal is on screen, and in any case if and only if the line last entered on the one that is, by its own events, is the same |
| LineEdit.OffScreenReadGetsAnother | student-distrib/terminal.c:97-111 | a case in which a program off screen reads 128 NULs for its line |
| LineEdit.ReportedLine | student-distrib/terminal.c:100-111 | the count a read reports for a line |
| LineEdit.HaltElsewhereLosesLine | student-distrib/terminal.c:65-74 | a case in which another terminal's halt wipes the entered line |
| LineEdit.NoNewline | student-distrib/keyboard.c:306-323 | no line ever holds a newline |
| KeyboardDriver.Board.CharKey | student-distrib/keyboard.c:306-323 | in place, the character step: dropped when the buffer is full |
| KeyboardDriver.Board.SpaceHelper | student-distrib/keyboard.c:389-395 | in place, the space step |
| KeyboardDriver.Board.TabHelper | student-distrib/keyboard.c:402-420 | in place, the tab step |
| KeyboardDriver.Board.BackspaceHelper | student-distrib/keyboard.c:358-366 | in place, the backspace step |
| KeyboardDriver.Board.BufferClear | student-distrib/keyboard.c:118-146 | active buffer and the chosen terminal's save area cleared, no other |
| KeyboardDriver.Board.EnterHelper | student-distrib/keyboard.c:335-351 | in place, the Enter step; the flag of the terminal on screen goes up and no other moves |
| KeyboardDriver.Board.KeyboardSwitch | student-distrib/keyboard.c:50-74 | one save area written, one restored |
| KeyboardDriver.Board.FHelper | student-distrib/keyboard.c:475-496 | in place, the F-key step |
| KeyboardDriver.Board.TerminalChangingHandler | student-distrib/keyboard.c:548-557 | in place, the swap of all four pieces of state |
| KeyboardDriver.Board.KeyboardHandler | student-distrib/keyboard.c:221-328 | each key goes to its helper and is its step |
| KeyboardDriver.Board.HaltLine | student-distrib/systemCall.c:33-79 | the halt lowers the scheduled terminal's flag and no other, and clears the visible buffer unless a shell halts |
| KeyboardDriver.Board.TerminalRead | student-distrib/terminal.c:82-112 | copies one byte more than asked, counts up to the newline, lowers the flag; -1 if and only if nbytes <= 0 |
| FileSystem.ReadData | student-distrib/file_systems.c:76-126 | byte i of the buffer is byte offset + i of the file's blocks, and the count is min(length, (L/4096+1)*4096 - offset); -1 if and only if the inode is out of range |
| FileSystem.ReadCountIs | student-distrib/file_systems.c:76-126 | the count is the request or what is left to the end of the block after the last byte, whichever is less, and 0 past the length |
| FileSystem.StoredAt | student-distrib/file_systems.c:93-123 | walking block numbers by index and offset reaches the byte the flat view has |
| FileSystem.LoadGetsWholeFile | student-distrib/systemCall.c:243-244 | the unclamped load gets all L bytes and overshoots by at most one block |
| FileSystem.LoadStaysInPageIff | student-distrib/systemCall.c:243-244 | the load stays in the 4 MB page if and only if the file is shorter than 0x3B8000 bytes |
| FileSystem.LoadPastThePage | student-distrib/systemCall.c:243-244 | a length that overshoots by a block, and the next smaller one, which fills the page |
| FileSystem.OpenFile.Read | student-distrib/file_systems.c:209-230 | a read passes on min(nbytes, remaining) next bytes and advances by as many; the position never passes the end |
| FileSystem.OpenFile.Close | student-distrib/systemCall.c:454-466 | a closed descriptor refuses to close again |
| FileSystem.ReadsConcatenate | student-distrib/file_systems.c:209-230 | reads of any sizes concatenate to the next bytes of the file, none lost, repeated or reordered |
| FileSystem.Cat | syscalls/ece391cat.c:21-28 | the loop ends having passed on exactly the file's bytes |
| FileSystem.StrNCmp | student-distrib/lib.c:552-566 | zero if and only if the two are the same C string within n bytes |
| FileSystem.FindDentry | student-distrib/file_systems.c:25-49 | the last entry of that name, or -1; a name over 32 bytes matches none |
| FileSystem.UniqueNameFound | student-distrib/file_systems.c:32-38 | with unique names that is the only one |
| FileSystem.OpenDirectory.Read | student-distrib/file_systems.c:154-175 | one whole name a call, then 0 and back to the start |
| FileSystem.NameOf | student-distrib/file_systems.c:154-175 | a name is what stands in the 32-byte field before its first NUL, or all of it |
| FileSystem.Ls | syscalls/ece391ls.c:18-26 | the names up to the first empty one, in order (`Grep.ListingSplits`), a line each, and where the directory is left |
| FileSystem.ListingOfSum | syscalls/ece391ls.c:18-26 | the listing of one directory after another is the listings one after the other |
| FileSystem.ListingOfOne | syscalls/ece391ls.c:18-26 | one entry is its name and a newline |
| Grep.ListingSplits | syscalls/ece391ls.c:18-26 | split at its newlines, the listing of newline-free names is those names in directory order |
| FileSystem.ListingCompleteIff | syscalls/ece391ls.c:18-26 | that is every name if and only if none is empty |
| FileSystem.EmptyNameCuts | syscalls/ece391ls.c:18-26 | a directory of three of which one is listed |
| Grep.DoOneFile | syscalls/ece391grep.c:9-66 | the output is fname:line for exactly the lines containing the string, in order and once each, across any chunk boundaries; the loops terminate |
| Grep.ScanBuffer | syscalls/ece391grep.c:28-57 | what a buffer's scan reports and what it carries over together owe exactly the reports of what was held and unread |
| Grep.ReadAndScan | syscalls/ece391grep.c:22-57 | the same across a read; at the end of the file nothing is carried |
| Grep.SearchLine | syscalls/ece391grep.c:40-51 | one report if and only if the string occurs in the line |
| Grep.MatchesAt | syscalls/ece391grep.c:43-44 | a match found in the terminated buffer lies inside the line |
| Grep.CarryOver | syscalls/ece391grep.c:34-38 | the partial line moved to the front intact |
| Grep.StrCpyDown | syscalls/ece391support.c:14-17 | the overlapping forward copy moves the string whole |
| Grep.StrNCmp | syscalls/ece391support.c:35-46 | zero if and only if the n bytes agree |
| Grep.CompleteLine | syscalls/ece391grep.c:29-38 | a line complete in the buffer is a line of the file |
| Grep.LinesAreTheText | syscalls/ece391grep.c:29-38 | the lines hold no newline and written out again are the text |
| Rtc.RaisesInClosedForm | student-distrib/rtc.c:42-57 | n interrupts raise the flag 0 times if n <= c, else 1 + (n-c-1)/(f+1) times |
| Rtc.ReadWaits | student-distrib/rtc.c:63-67 | a read ends at exactly interrupt c + 1 |
| Rtc.ReadsTakeExactly | student-distrib/rtc.c:63-67 | back-to-back reads take c + 1 interrupts and then f + 1 each |
| Rtc.ClocksAreIndependent | student-distrib/rtc.c:42-57 | over any run each terminal's clock is what its own events and the interrupts make of it |
| Rtc.StaysTuned | student-distrib/rtc.c:105-130 | once f * frequency is 1024 it stays so |
| Rtc.WriteSets | student-distrib/rtc.c:105-130 | writing a power of two f in 1..1024 records f as the rate and a reload with reload * f = 1024; count and flag stay |
| Rtc.ReadsAtRate | student-distrib/rtc.c:63-130 | from then on back-to-back reads take what is left of the count plus one, and then 1024 / f + 1 interrupts each |
| Rtc.OpenSets | student-distrib/rtc.c:74-80 | any other rate changes nothing; opening sets rate 2 and reload 512 |
| Rtc.AcceptsExactly | student-distrib/rtc.c:96-130 | the rates in the table are exactly the powers of two in 1..1024 |
| Rtc.Driver.RtcHandler | student-distrib/rtc.c:42-57 | an interrupt is one step of each terminal's clock |
| Rtc.Driver.PowerOfTwo | student-distrib/rtc.c:97-105 | halving until odd ends, and ends at 1 if and only if the number is a power of two |
| Rtc.Driver.RtcWrite | student-distrib/rtc.c:88-136 | accepts exactly a four-byte power of two f in 1..1024, records f as the rate with a reload of 1024 / f, and otherwise changes nothing |
| Rtc.Driver.RtcOpen | student-distrib/rtc.c:74-80 | rate 2 and reload 512 for the scheduled terminal only |
| Rtc.Driver.RtcRead | student-distrib/rtc.c:63-65 | lowers the scheduled terminal's flag only |
| BlinkPool.BlinksInThePool | fish/blink.S:49-99 | what the pool holds for a character added: on at tick n if and only if n mod (on+off) < on, for every 16-bit length (one that is 0 or over 32768 lasts one tick), with the first character it was given standing for on and the second for off, over any run of calls at other locations that takes no slot for location 0 |
| BlinkList.BlinksOnSchedule | fish/blink.S:49-99 | the same of the list |
| BlinkList.AfterKeepsItself | fish/blink.S:64-86 | ticks leave the location, both characters and both lengths of an entry as they were |
| BlinkList.LengthsLast | fish/blink.S:64-86 | lengths 1 to 32768 last what they say, any other one tick |
| BlinkList.AcceptedIff | fish/blink.S:105-264 | an add is refused if and only if it is off screen or the pool is full, a removal or a sync if and only if a location it names has no entry |
| BlinkList.AddIs | fish/blink.S:131-162 | an entry added goes first, on, with its on-length to run, and all else as given |
| BlinkList.RemoveIs | fish/blink.S:206-222 | the first entry for the location goes and the rest keep their order |
| BlinkList.SyncIs | fish/blink.S:248-275 | the low word's entry takes the high one's lengths, countdown and state and keeps its own location and characters; the high one's stays as it is |
| BlinkList.TickPhase | fish/blink.S:64-86 | one tick moves one step through the period |
| BlinkList.StepElsewhere | fish/blink.S:105-292 | a call whose 16-bit location is another, and not 0, never shows at this one |
| BlinkList.RunElsewhere | fish/blink.S:105-292 | over a run of such calls only the number of ticks counts |
| BlinkList.SyncStaysInLockstep | fish/blink.S:240-275 | two locations synchronised agree after any such run that names neither again, the target showing its own characters |
| BlinkPool.AddThreadsIff | fish/blink.S:131-162 | adding keeps the list acyclic and equal to the slots in use if and only if the location is not 0 |
| BlinkPool.PoolStepRefines | fish/blink.S:105-294 | every call and tick does to the memory what it does to the list, but for an add at location 0, after which the memory holds no list |
| BlinkPool.StaysListedIff | fish/blink.S:131-162 | over a run there is a list, made of exactly the slots in use, after every step if and only if no accepted add is at location 0 |
| BlinkPool.PoolRunRefines | fish/blink.S:105-294 | over such a run the memory holds the list the calls make |
| BlinkPool.LocationZeroLoops | fish/fish.c:160-170 | after a location 0 the next entry added links to itself |
| BlinkPool.UnlinkedThreaded | fish/blink.S:206-222 | unlinking and freeing any position leaves a threaded list without that entry |
| BlinkPool.FullIff | fish/fish.c:160-170 | there is no free slot if and only if the list has 2000 entries |
| BlinkPool.Pool.Malloc | fish/fish.c:160-170 | the first free slot, or null if every slot is in use |
| BlinkPool.Pool.FindHelper | fish/blink.S:351-379 | the first entry whose location is the argument's low 16 bits, or null if there is none; the walk ends |
| BlinkPool.Pool.IoctlAdd | fish/blink.S:105-184 | in place, the add step for every location; refused if and only if off screen or full; the list survives if and only if the location is not 0 |
| BlinkPool.Pool.IoctlRemove | fish/blink.S:187-237 | in place, the remove step: the first entry for the low 16 bits goes; refused if and only if there is none |
| BlinkPool.Pool.FindPrev | fish/blink.S:206-212 | the search for the link to the entry ends at it |
| BlinkPool.Pool.IoctlSync | fish/blink.S:240-294 | in place, the low location takes the high one's lengths, countdown and status |
| BlinkPool.Pool.RtcTasklet | fish/blink.S:49-99 | in place, every entry of the list takes one tick, once, and keeps its characters (`BlinkList.AfterKeepsItself`) |
| Numbers.DigitsReadBack | student-distrib/lib.c:342-347 | the digits are worth the number in every radix 2..36, without a leading zero |
| Numbers.DigitsAreCanonical | student-distrib/lib.c:342-347 | and are the only such digits |
| Numbers.WrittenFits | student-distrib/lib.c:342-350 | a 32-bit number takes at most 32 characters |
| Numbers.PrintedDistinct | student-distrib/lib.c:324-354 | different numbers print differently |
| Numbers.WrittenExamples | student-distrib/lib.c:324-354 | 0 is written 0, and digits past 9 are capital letters |
| Numbers.Itoa | student-distrib/lib.c:324-354 | leaves those digits and a NUL at the place given, and touches nothing else |
| Numbers.StrRev | student-distrib/lib.c:360-373 | reverses the string in place |
| Numbers.StrLen | student-distrib/lib.c:379-384 | the distance to the first NUL |
| Numbers.Puts | student-distrib/lib.c:209-216 | prints exactly up to the NUL |
| Numbers.PrintHex | student-distrib/lib.c:136-146 | `%#x` prints exactly eight hexadecimal digits worth the value |
| Numbers.PrintDecimal | student-distrib/lib.c:162-175 | `%d` prints a sign for negatives and the size in decimal, the most negative value included |
| Arguments.Tokenise | fish/ece391emulate.c:67-100 | the vector is `./` and the first word, then the words after it, each ended in place; at most 513, so it fits its array; -1 if and only if the command is over 1023 characters |
| Arguments.TokenLaws | fish/ece391emulate.c:76-100 | a space or a newline ends a word, spaces before a word are skipped, and a newline where a word would start ends the command |
| Arguments.ArgvLaws | fish/ece391emulate.c:76-100 | the vector starts with `./` and the first word, which may be empty |
| Arguments.GetArgs | fish/ece391emulate.c:131-157 | joins them with single spaces; succeeds if and only if they fit with a NUL |
| Arguments.ArgumentsAreTheRest | fish/ece391emulate.c:76-157 | for a newline-free command, tokenised and joined is the text after the first word with spaces collapsed |
| Arguments.CollapseTidies | fish/ece391emulate.c:88-98 | collapsed text has no leading, trailing or repeated space and loses nothing but spaces |
| Arguments.TidyUnchanged | fish/ece391emulate.c:88-98 | collapsing leaves tidy text alone |
| Arguments.JoinedSplitsBack | fish/ece391emulate.c:131-157 | a joined line splits back into the very words it was made of |
| CommandLine.ProgramName | student-distrib/systemCall.c:126-169 | the name looked up is the command's first word, as far as 32 characters |
| CommandLine.ParseArgs | student-distrib/systemCall.c:170-186 | the argument buffer holds the text after the last space, as far as it fits, then NULs |
| CommandLine.FindSpace | student-distrib/systemCall.c:173-179 | the loop finds the last space |
| CommandLine.KeptIsAllIff | student-distrib/systemCall.c:173-186 | that is everything after the first space if and only if there is no second |
| CommandLine.SecondArgumentOnly | student-distrib/systemCall.c:173-186 | a case in which the first argument is lost |
| CommandLine.GetArgs | student-distrib/systemCall.c:474-494 | hands the buffer over padded with NULs; -1 if and only if it is empty |
| CommandLine.OwnArgumentIff | student-distrib/systemCall.c:170-186 | a program finds the argument it was started with if and only if no execute has been called since, on any terminal and failing or not, or the last kept the same characters |
| CommandLine.AnotherCallTakesArgument | student-distrib/systemCall.c:170-186 | a case in which another terminal's command takes its place |
| CommandLine.ArgumentsReach | student-distrib/systemCall.c:474-494 | what a program reads back is exactly the text kept, if it fits both buffers |

## Left out

- Inline assembly, iret, TLB flushes, descriptor tables, port I/O (PIC, PIT, CMOS, hardware cursor): a context switch is
  saving and loading an opaque pair, a page-table entry a number.
- Interrupts in the middle of a handler: steps are atomic.
- The contents of a user page after its program has been loaded, and of the program beyond its magic number and entry.
- Descriptor tables beyond one open file or directory: `open`, `write` and the closing of files 2 to 7 in `halt`.
- The wait loops of `terminal_read` and `rtc_read`: the first is a precondition that the flag is up, the second is
  counted in interrupts.
- Character 0x08 on the screen, Ctrl+L, scan-code tables, Shift and Caps Lock.
- What the blink calls store in video memory, and `mp1_ioctl_find`'s copy out.
- Multiboot, exception handlers, paging set-up, signals, `fork`, `execv`, `wait`, `mmap` and `readdir`.
- Consoles.RunRefines: for runs that print and echo no 0x08; so are the console theorems built on it.
- LineEdit.LineIsFold: for runs with F-keys only under Alt, Space and Enter only with room in the buffer; so are the
  theorems about whole runs of keys.
- Grep.DoOneFile: needs a NUL-free file with lines under 1024 bytes and `data[1024]` not a newline at first, and does
  not model a close that fails after a successful open.
- FileSystem.Ls: starts from an open directory at its beginning; failures to open or write are not modelled.
- FileSystem.Cat: starts from an open file; `main`'s argument and open failures, and failing writes, are not modelled.
- FileSystem.OpenFile.Close: for a descriptor that names a file; range checks and `openIndexes` are not modelled.
- Arguments.ArgumentsAreTheRest: for a newline-free command only; with newlines `Arguments.Tokenise` still says what
  the vector is.
- Arguments.GetArgs: needs one writable byte past `nbytes`, which the copy of a last argument that exactly fills the
  buffer writes before the call fails.
- CommandLine.ProgramName: needs 32 readable bytes from the start of the command, which is not empty, since the code
  reads that far; what it does at the end of a shorter mapping is not modelled.
- CommandLine.GetArgs: needs a NUL in the argument buffer, up to which the code measures it.
- Kernel.Machine.Execute: takes the program's name, which `CommandLine.ProgramName` makes of the command, and does not
  fill in the descriptor table.
- Kernel.Machine.FillPcb: the parent, the entry point and the two saved contexts; `active`, `id`, the start stack
  pointer and the descriptors are not modelled.
- Kernel.Machine.Halt: does not model the status handed to the parent or the closing of descriptors 2 to 7; descriptors
  0 and 1 close in `KeyboardDriver.Board.HaltLine`.
- Kernel.Machine.Load: what the page holds beyond the header, and what lies past the page, are not modelled.
- VideoDriver.Terminals.Putc: for any character but 0x08, whose effect is on the visible cursor whichever terminal
  prints it.
- VideoDriver.Terminals.KeyboardPutc: for any character but 0x08.
- KeyboardDriver.Board.SpaceHelper: needs room in the buffer, which the code does not check.
- KeyboardDriver.Board.EnterHelper: needs room for the newline `buffer_clear` stores after the line.
- KeyboardDriver.Board.KeyboardHandler: needs the same room as its helpers.
- KeyboardDriver.Board.TerminalRead: from the moment its Enter flag is up; the wait for it is not modelled.
- Rtc.Driver.RtcRead: up to the wait, whose length `Rtc.ReadWaits` gives.
- Boot's own terminal switches are events of the process and video machines, not of the line editor, whose runs start
  after them.
