# A verified model of a teaching operating system

The repository is a small x86 kernel with three text terminals, six process slots, a round-robin
scheduler, a read-only block file system and a handful of user programs. This project models its
stateful core in Dafny 4.11 and proves what that core keeps over whole runs. `dafny verify
dfyconfig.toml` checks everything.

Each component has the same two layers. A class or method follows the C or assembly code step by step
on the same fields and arrays, and is proved to do exactly what a function on values says. Lemmas then
relate those functions to something simpler.

| Component | Follows the code | On values | The simple thing it refines |
|---|---|---|---|
| Text console | `TextConsole`, `Memory` | `Screen`, `VideoMemory` | an endless page (`Page`), a stack of typed characters (`LineEditor`), three separate terminals (`Desk`) and lines (`KeyLines`) |
| Processes | `Kernel` | `ProcessSpec` | three stacks and a rotating index (`ProcessStacks`, `ProcessRuns`) |
| Search | `Grep` | `GrepSpec.Streamed` | split into lines, then filter (`GrepSpec.Lines`, `GrepSpec.Matching`) |
| Files | `FileSystem.ReadData`, `Directory`, `Descriptors` | `DescriptorSpec` | a flat byte sequence per file (`FileSystem.FileOf`) |
| Blinking characters | `BlinkList` | `BlinkSpec` | a sequence of entries, and a phase in closed form (`BlinkPhase`) |
| Numbers | `Numerals` | `Numerals.Numeral` | the number that the digits parse back to |

The main results:

- **The screen is the end of an endless page.** After any backspace-free text on a cleared screen, the
  25 video rows are the last 25 rows of the whole text laid out 80 columns wide
  (`Page.ScreenIsEndOfPage`). Read row by row, that layout says the text again, character for character
  (`Page.PageReadsBack`), and a glyph is the character with attribute 7 where the cursor stood
  (`Screen.GlyphCells`).
- **Line editing is exact.** With any mixture of keys and backspaces, the key buffer holds the
  characters no backspace cancelled, and the screen is the one typing only those would give, moved up
  by the rows that deleted text scrolled (`LineEditor.EditingFromAnyReadyConsole`). A single key
  followed by a backspace restores the screen if and only if the key neither scrolled it nor was a Tab
  dropped for lack of room (`LineEditor.UndoIsExact`). Output leaves a console ready for a line if
  and only if the characters it records do not just fill the display buffer of 2000 places
  (`LineEditor.OutputLeavesReady`).
- **Three virtual screens.** However output, keys, key releases, clears, terminal switches, reads and
  ticks interleave, each terminal shows what it was itself made to draw as long as every output starts
  with the shared cursor at its own terminal's cursor (`Desk.ScreensAreIndependent`). That holds in
  every run where between an output and the tick before it no key went down or up while another
  terminal was displayed and the display did not change (`Desk.TidyTerminalShowsItsPage`). For a single
  output the condition is exact (`Desk.OutputIsExact`).
- **Three lines.** Whatever else happens, with backspaces or without, a terminal's line is what its own
  keys leave when each backspace cancels the key before it on that terminal
  (`KeyLines.LinesAreSurvivors`).
- **Processes are three stacks.** In every run of `execute`, `halt` and ticks the table is one stack per
  terminal (`ProcessRuns.RunsAreStacks`), and `halt` resumes the launching process with the registers
  the matching `execute` saved (`ProcessRuns.HaltResumesLauncher`). When a terminal's turn comes again,
  exactly the process the timer took away goes on with the registers it had
  (`ProcessRuns.TurnResumesProcess`), and the turns go round 0, 1, 2 whatever else is done
  (`ProcessRuns.TurnsGoRound`, `ProcessRuns.EveryTerminalHasItsTurn`).
- **Streaming search is exact if and only if** no line is longer than 1024 bytes and, when the byte
  behind the window happens to start as a newline, the cuts this makes fall between lines
  (`GrepSpec.StreamingIsExact`). `Grep.DoOneFile` is proved for longer lines too, and for whatever the
  window on the stack held before.
- **A name leads to its file.** Whatever else a process does, what it reads from a file it opened by
  name is the front of the file that the name's entry stands for (`DescriptorSpec.OpenedFileIsRead`,
  from `DescriptorSpec.ReadsAreConsecutive`), so `cat` of a name writes that file (`Descriptors.CatNamed`).
  `ls` writes every name once and in order, but for the last one of a full directory
  (`Descriptors.LsHere`).
- **The blink list and its pool agree in every run whose adds avoid location 0**, and an added entry is
  on after n ticks if and only if n modulo its period falls in the on part (`BlinkSpec.AddedPhase`).
  Removing what was just added gives the list back (`BlinkSpec.RemoveUndoesAdd`).

Where the code differs from what its comments or neighbours suggest, the model follows the code:

- The per-terminal loading and saving of the undo buffers is commented out
  (`student-distrib/lib.c:233`, `student-distrib/lib.c:363`); one set of undo buffers serves all
  terminals. The keyboard handler restores the video pointer but not the cursor
  (`student-distrib/keyboard.c:223-233`), and it loads that cursor for every code that is not a modifier
  key, releases included (`student-distrib/keyboard.c:154-156`). So a key typed or merely released on
  another terminal moves the cursor the scheduled process writes at until the next tick.
  `Desk.OutOfSyncOutput` has such runs from three cleared screens, which every desk can be brought to
  (`Desk.EveryDeskComesHome`); `Desk.OutputIsExact` says exactly when an output still lands where it
  should.
- The last byte of the search window is never set before the first read (`syscalls/ece391grep.c:13`). If it
  starts as a newline, the first full window ends the line it stops in: `GrepSpec.StaleNewlineCuts` has
  a line of 600 bytes cut in two, `GrepSpec.CutsCleanly` is the exact condition.
- A Tab at column 75 or later is dropped by `putc` yet kept in the key buffer, so its backspace eats
  into the text: `LineEditor.UndoDroppedTab`.
- A directory of 63 entries is listed without its last name, because the read of the 63rd name returns
  0: `Directory.ListingIsComplete` gives the exact condition.
- An add at location 0 is accepted although 0 marks a free slot; a second one makes a slot its own
  successor: `BlinkSpec.ZeroLocationLoops`, with the exact condition in `BlinkSpec.AddKeepsExactly`.
- A first tick to a terminal when all six slots are taken leaves that terminal scheduled with nothing to
  run: `ProcessRuns.TickKeepsExactly` gives the exact condition, `ProcessRuns.SixShellsStopTheTick` a run
  from boot that gets there, `ProcessRuns.ReservedRunsGoOn` a rule under which it never happens.
- A blink length is compared as a signed 16-bit word after being decremented; lengths of 0 and above
  32768 last one tick (`BlinkPhase.Effective`).
- The saved key buffers point into a local of `terminal_init` (`student-distrib/terminal.c:128`); the
  model gives each terminal an array of its own.

Assumptions: each `execute`, `halt` and timer tick is one atomic step; the file system holds a usable
`shell`, and its entry "." is a directory; the first `execute` is the kernel's own, and a tick may come before it. Parsed commands, the
registers live when a step saves them, file contents and keys are parameters.

## Model

| member | source | states |
|---|---|---|
| Screen.SpacedStep | student-distrib/lib.c:320-324 | drawing a Tab space by space gives the four-space stretch |
| Screen.GlyphCells | student-distrib/lib.c:328-365 | any character but backspace, newline, return and Tab stands with attribute 7 where the cursor was, the mark where it is now; every other cell stays, or moves up one row with a blank row below if the bottom row was filled |
| Screen.BreakCells | student-distrib/lib.c:285-311 | a newline or return blanks the mark and takes the cursor to the start of the next row; every other cell stays or moves up one row |
| Screen.TabCells | student-distrib/lib.c:316-326 | a Tab before column 75 writes four spaces and moves the cursor behind them, and from column 75 on nothing |
| Screen.ClearedCells | student-distrib/lib.c:25-36 | a cleared screen has a space with attribute 7 in each of its 2000 cells and the cursor home |
| Screen.PlainTextIsShown | student-distrib/lib.c:328-365 | character k of a text without control characters that fits the screen stands in row k / 80, column k % 80 |
| Page.DrawFollowsPage | student-distrib/lib.c:284-362 | one drawn character keeps the screen a window on the endless page, which moves only when the cursor row would leave it |
| Page.DrawAllFollowsPage | student-distrib/lib.c:284-362 | the same for any backspace-free text, from any screen that shows a page |
| Page.ScreenIsEndOfPage | student-distrib/lib.c:284-366 | after any nonempty backspace-free text on a cleared screen, the 25 rows are the last 25 rows of the text laid out on an endless page, with the mark at the cursor and blanks after it |
| Page.TypeReads | student-distrib/lib.c:284-362 | typing a character adds to what the page says, read row by row, the character itself, a newline for a return, four spaces for a Tab before column 75 and nothing for a later one |
| Page.PageReadsBack | student-distrib/lib.c:284-362 | the page of any backspace-free text, read row by row, says the whole text in order |
| Page.PlainTextReadsBack | student-distrib/lib.c:328-360 | a text without backspaces, returns and Tabs reads back exactly |
| Page.PageWidth | student-distrib/lib.c:334-358 | the rows of the page are 80 columns wide and end early only at a line break |
| LineEditor.NoteRowEndMarks | student-distrib/lib.c:291-309 | ending a row records how it ended at the place where the row then is, also when the screen scrolls |
| LineEditor.EraseShows | student-distrib/lib.c:244-281 | a backspace over the last character gives the screen of the page without it, across full rows, line breaks and Tabs |
| LineEditor.PressKeeps | student-distrib/keyboard.c:215-217 | a typed character extends key buffer, undo buffer, records and page together |
| LineEditor.BackspaceKeeps | student-distrib/keyboard.c:203-212 | a backspace takes back exactly the last character while the row the line began on is visible, and never leaves the arrays |
| LineEditor.EveryReadyConsoleStarts | student-distrib/lib.c:360-365 | every console with the mark at the cursor, blanks after it and no full-line mark from there on is a valid start of a line |
| LineEditor.PutAllKeepsColumns | student-distrib/lib.c:292-309 | whatever is put, backspaces included, the recorded row ends are always columns of the screen |
| LineEditor.TextFollows | student-distrib/lib.c:284-362 | backspace-free output keeps the undo records in step with the endless page, also when the display buffer is wiped |
| LineEditor.IndexCounts | student-distrib/lib.c:235-242 | the index of the display buffer after output: the number of recorded characters, wrapped when a character finds the 2000 places full |
| LineEditor.OutputLeavesReady | student-distrib/lib.c:235-242 | backspace-free output leaves a console ready for a line if and only if the old index plus the characters recorded is no positive multiple of 2000, or the output ends with a dropped Tab |
| LineEditor.BootedOutputLeavesReady | student-distrib/terminal.c:125-150 | from the booted console, nonempty output does so if and only if the number of characters recorded is no multiple of 2000 or it ends with a dropped Tab |
| LineEditor.EditingIsExact | student-distrib/keyboard.c:202-220 | for every typable key stream the key buffer is the stream with each backspace cancelling the character before it, and the screen shows the page of just those |
| LineEditor.EditingShowsSurvivors | student-distrib/keyboard.c:202-220 | the screen after editing is that of typing only the survivors, raised by exactly the extra rows scrolled, and equal if none scrolled |
| LineEditor.ShowsDetermines | student-distrib/lib.c:345-356 | two screens that show the same page differ only by how far it has scrolled |
| LineEditor.EditingFromAnyReadyConsole | student-distrib/keyboard.c:202-220 | the same stated from any ready console with an empty key buffer |
| LineEditor.SurvivorsAreTypable | student-distrib/keyboard.c:202-220 | typing only the survivors fits the buffers whenever the whole stream does, and scrolls no further |
| LineEditor.BackspaceCancels | student-distrib/keyboard.c:203-212 | a character and the backspace right behind it can be struck out anywhere in a key stream without a change of what survives |
| LineEditor.LeadingBackspace | student-distrib/keyboard.c:203-206 | a backspace with no key before it is ignored |
| LineEditor.SurvivorsStay | student-distrib/keyboard.c:214-217 | a stream without backspaces survives whole |
| LineEditor.UndoIsExact | student-distrib/lib.c:244-366 | a key followed by a backspace restores the screen if and only if the key neither scrolled it nor was a dropped Tab; the key buffer is restored always |
| LineEditor.UndoScrolled | student-distrib/lib.c:291-306 | a key that scrolls and its backspace leave the cursor one row higher |
| LineEditor.UndoDroppedTab | student-distrib/lib.c:317 | a Tab at column 75 or later changes no screen but is kept as a key, and its backspace moves the cursor back over older text |
| Memory.Memmove | student-distrib/lib.c:571-589 | the destination holds what the source held before, for every overlap in either direction, and nothing else changes |
| Memory.Memcpy | student-distrib/lib.c:525-562 | the same for blocks that do not overlap or move down |
| VideoMemory.StorePlots | student-distrib/lib.c:330-331 | storing a cell at row times 80 plus column plots it on the rows and changes nothing else |
| VideoMemory.RowsCell | student-distrib/lib.c:330-331 | the cell in column x of row y is number 80 y + x of its screen |
| VideoMemory.MoveScrolls | student-distrib/lib.c:294-304 | moving the lower 24 rows of cells up and blanking the last row scrolls the rows |
| VideoMemory.OtherScreen | student-distrib/terminal.c:144 | writing one screen leaves every screen elsewhere in memory alone |
| VideoMemory.MovedScreen | student-distrib/terminal.c:160-161 | copying a page of cells carries its screen along |
| TextConsole.TextConsole.constructor | student-distrib/terminal.c:125-150 | the console starts aimed at terminal 0, with every cursor home, empty lines and empty undo buffers |
| TextConsole.TextConsole.Store | student-distrib/lib.c:330-331 | one cell is plotted at the cursor of the screen in use and no other cell changes |
| TextConsole.TextConsole.ShiftMarks | student-distrib/lib.c:346-351 | both per-row records move up by one, the last entry stays, and a row that scrolled because it was filled is marked |
| TextConsole.TextConsole.Scroll | student-distrib/lib.c:345-356 | rows and per-row records move up together, the last row is blank, a filled row is marked, no other screen changes |
| TextConsole.TextConsole.EndRow | student-distrib/lib.c:334-358 | the end of a filled or broken row: the new row and the record of how the old one ended |
| TextConsole.TextConsole.StepBack | student-distrib/lib.c:247-281 | where a backspace puts the cursor in each of its five cases, and what it takes off the undo buffers |
| TextConsole.TextConsole.PutBackspace | student-distrib/lib.c:244-282 | the whole backspace branch |
| TextConsole.TextConsole.PutBreak | student-distrib/lib.c:285-311 | the newline branch |
| TextConsole.TextConsole.PutTab | student-distrib/lib.c:316-326 | the Tab branch when there is room |
| TextConsole.TextConsole.PutGlyph | student-distrib/lib.c:328-359 | the branch that draws a glyph |
| TextConsole.TextConsole.Putc | student-distrib/lib.c:225-366 | one call of putc has exactly the specified effect on screen, cursor, undo buffer and records, charges the cursor to the right terminal, and writes no cell outside the screen in use |
| TextConsole.TextConsole.TerminalWrite | student-distrib/terminal.c:105-117 | output, with backspaces that stay inside the arrays, has the effect of its characters one by one on the scheduled terminal's screen, changes no other terminal, and returns its length |
| TextConsole.TextConsole.KeyPress | student-distrib/keyboard.c:154-233 | a key with a character edits the displayed terminal's line and screen as the line editor says, leaves the other terminals alone, and leaves the console aimed at the scheduled screen; a backspace with no key held only moves the shared cursor |
| TextConsole.TextConsole.SilentKey | student-distrib/keyboard.c:154-233 | a key release or a function key alone changes no screen and no line, but takes the shared cursor to the displayed terminal |
| TextConsole.TextConsole.ModifierKey | student-distrib/keyboard.c:116-152 | a modifier key changes nothing on the desk |
| TextConsole.TextConsole.MemorySwitch | student-distrib/execute.c:332-350 | the cursor and the screen of the terminal scheduled next are loaded, no screen or line changes |
| TextConsole.TextConsole.TimerTick | student-distrib/pit.c:28-33 | a tick schedules the next terminal, aims at its screen with its cursor and changes no screen or line |
| TextConsole.TextConsole.SwapScreens | student-distrib/terminal.c:160-161 | the displayed screen goes to its page, the wanted one comes to video memory, the third stays |
| TextConsole.TextConsole.SaveKeys | student-distrib/terminal.c:166-172 | the line in the key buffer is saved at its terminal's own place and nowhere else |
| TextConsole.TextConsole.UpdateKeybBuf | student-distrib/keyboard.c:289-302 | the key buffer holds exactly the given line |
| TextConsole.TextConsole.CleanKeybBuffer | student-distrib/keyboard.c:310-317 | the keys held are zeroed and none is held any more |
| TextConsole.TextConsole.TerminalSwitch | student-distrib/terminal.c:157-178 | after a switch each of the three terminals has the screen, cursor and line it had before |
| TextConsole.TextConsole.SwitchKey | student-distrib/keyboard.c:164-180 | Alt with a function key changes the displayed terminal and the shared cursor, nothing else |
| TextConsole.TextConsole.Clear | student-distrib/lib.c:25-36 | the displayed screen is blank with its cursor home, the other screens and all lines stay |
| TextConsole.TextConsole.ClearKey | student-distrib/keyboard.c:159-162 | Ctrl with L wipes the displayed terminal only |
| TextConsole.TextConsole.TerminalRead | student-distrib/terminal.c:73-97 | the line typed on the displayed terminal is handed over as a string and dropped; a full key buffer is dropped with a message |
| Desk.WriteInSync | student-distrib/terminal.c:105-117 | output that starts at its own terminal's cursor draws exactly the text on that screen and stays in step |
| Desk.ScreensAreIndependent | student-distrib/execute.c:332-350 | in every run of outputs, keys, silent keys, clears, switches, reads and ticks whose outputs start with the shared cursor at their own terminal's cursor, each terminal's screen and cursor are what its own output and echoed keys draw since it was last wiped |
| Desk.TerminalShowsItsPage | student-distrib/terminal.c:157-178 | in such a run a terminal that started cleared shows the last 25 rows of the page of its own text |
| Desk.TidyStaysInSync | student-distrib/keyboard.c:154-156 | outputs start at their own terminal's cursor in every run where, since the tick before each output, no key went down or up while another terminal was displayed and the display did not change |
| Desk.TidyTerminalShowsItsPage | student-distrib/terminal.c:157-178 | the page result for these runs, told by the order of the steps alone |
| Desk.GlyphIsExact | student-distrib/lib.c:328-365 | a glyph lands as on its own terminal if and only if the shared cursor is that terminal's, or both stand in the last column of the two bottom rows on rows where a scroll does not show |
| Desk.OutputIsExact | student-distrib/terminal.c:105-117 | under exactly that condition every backspace-free output of the scheduled terminal draws what it would draw there alone |
| Desk.StepMovesLines | student-distrib/terminal.c:166-174 | every step of the desk moves the lines as the key, read or switch in it does, and output, ticks, clears and silent keys leave them alone |
| Desk.LinesAreIndependent | student-distrib/terminal.c:166-174 | in every run without backspaces each terminal's line is what it began with and the keys typed while it was displayed since it was last read |
| KeyLines.LinesAreExact | student-distrib/keyboard.c:202-216 | in every run, backspaces included, each terminal's line is what its own keys make of the line it began with |
| KeyLines.LinesAreSurvivors | student-distrib/keyboard.c:202-216 | a line that begins empty is its own keys with each backspace cancelling the key before it on that terminal, ignored if there is none |
| Desk.OutOfSyncOutput | student-distrib/keyboard.c:223-233 | runs from three cleared screens: lines printed, a key typed or only released on another terminal, and the next output lands in the first row instead of below the lines |
| Desk.EveryDeskComesHome | student-distrib/keyboard.c:159-180 | showing and clearing each terminal in turn leads from any desk to three cleared screens, with the same terminal scheduled |
| Desk.TurnsGoRound | student-distrib/terminal.c:141 | in every run the scheduled terminal is as many places round the ring 0, 1, 2 as there were ticks |
| Desk.StepsAreLocal | student-distrib/terminal.c:157-178 | output changes the screen of the scheduled terminal alone, keys, clears and reads reach the displayed one alone, and only a switch changes the display |
| Desk.SwitchMovesCursor | student-distrib/keyboard.c:164-180 | a switch shows the wanted terminal and leaves the shared cursor at that of the terminal whose turn comes next, or, without a change of display, at the displayed one's |
| Terminals.NextInOrder | student-distrib/terminal.c:141 | after terminal 2 comes terminal 0, otherwise the next higher one |
| Terminals.TurnedInClosedForm | student-distrib/execute.c:292-296 | n turns on from a terminal is its number plus n modulo 3 |
| ProcessSpec.FramesAreDisjoint | student-distrib/page.h:16-21 | programs in different slots are mapped to disjoint 4 MB frames above the kernel's first 8 MB, present, writable and the user's |
| ProcessSpec.KernelStacksAreApart | student-distrib/execute.c:207 | the kernel stack of every slot starts inside 8 KB of its own, the stack of a higher slot ends below |
| ProcessSpec.ChecksWantElf | student-distrib/execute.c:66-80 | a program passes the checks if and only if its name leads to a file of at least 40 bytes whose first four are 0x7f, E, L, F |
| ProcessSpec.EmptyFrom | student-distrib/execute.c:259-271 | the slot taken is the first inactive one |
| ProcessSpec.LoadNeverFails | student-distrib/execute.c:86 | the load check after the paging has been changed cannot fail on a well-formed image |
| ProcessSpec.RefusedLeavesSystem | student-distrib/execute.c:51-86 | execute returns if and only if a check fails or no slot is free, with 0 for a full table and -1 otherwise, and then table, counts, running process, kernel stack and paging are as they were; a launch takes the lowest free slot |
| ProcessStacks.LaunchPushes | student-distrib/execute.c:88-109 | launching pushes the new process on the scheduled terminal's stack and saves the caller's registers just below it |
| ProcessStacks.LeavePops | student-distrib/execute.c:122-142 | giving up a slot pops the scheduled terminal's stack |
| ProcessStacks.ReturnRuns | student-distrib/execute.c:143-156 | the process below is then the running one, mapped and on its own kernel stack |
| ProcessStacks.SuspendSaves | student-distrib/execute.c:280-289 | putting the running process away saves registers and kernel stack of the scheduled top and of nothing else |
| ProcessStacks.RotateKeeps | student-distrib/execute.c:291-301 | moving to the next terminal keeps the table and picks up that terminal's top |
| ProcessStacks.ResumeRuns | student-distrib/execute.c:307-317 | the resumed process is the next terminal's top with its own frame, kernel stack and saved registers, although create_pcb first stores another process's kernel stack |
| ProcessStacks.ActiveIsOnStack | student-distrib/execute.c:206-215 | the active slots are exactly those on the stacks |
| ProcessRuns.ExecSound | student-distrib/execute.c:47-113 | every execute, launched or refused, keeps the table made of three stacks |
| ProcessRuns.HaltSound | student-distrib/execute.c:120-174 | every halt does, and resumes the entry below with its saved registers; a base shell is replaced by a new one |
| ProcessRuns.TickSound | student-distrib/execute.c:278-325 | every tick does, and goes on with the next terminal's top and its saved registers, or launches its first shell |
| ProcessRuns.StepSound | student-distrib/execute.c:47-325 | whatever the step, it can be taken and keeps the table made of three stacks with the running process on top |
| ProcessRuns.FreshIsSound | student-distrib/execute.c:36-38 | the machine before its first process starts from three empty stacks |
| ProcessRuns.RunsAreStacks | student-distrib/execute.c:278-325 | in every run from boot the counts are the stack heights, the running process is the scheduled top with its frame mapped and its own kernel stack, and every suspended terminal's saved pointer is its own top with its own kernel stack |
| ProcessRuns.ParentsLeadToBase | student-distrib/execute.c:208-214 | parent links lead down the stack, without a cycle, to one base shell whose parent is -1 |
| ProcessRuns.LowEntriesStayThroughout | student-distrib/execute.c:282-289 | while a terminal keeps more than h processes, no step of a run touches its lowest h ones or their saved registers |
| ProcessRuns.HaltResumesLauncher | student-distrib/execute.c:134-170 | halt resumes exactly the process that launched the halted one with the registers saved by the matching execute, whatever came between |
| ProcessRuns.StackStaysWhileAway | student-distrib/execute.c:278-325 | while a terminal is not scheduled no step of a run touches its stack or the registers saved on it |
| ProcessRuns.TurnResumesProcess | student-distrib/execute.c:278-325 | when the turn comes back to a terminal, the tick goes on with exactly the process and the registers that the timer took away there, whatever the other terminals did in between |
| ProcessRuns.StepTurns | student-distrib/execute.c:291-296 | a tick moves on to the next terminal of the ring, an execute or halt to none |
| ProcessRuns.TicksTurn | student-distrib/execute.c:291-296 | the terminal that the ticks of a run lead to is the start plus their number modulo 3 |
| ProcessRuns.TurnsGoRound | student-distrib/execute.c:291-296 | in every run the scheduled terminal is as many places round the ring 0, 1, 2 as there were ticks |
| ProcessRuns.EveryTerminalHasItsTurn | student-distrib/execute.c:291-296 | every run with two ticks or more has scheduled each of the three terminals |
| ProcessRuns.TickKeepsExactly | student-distrib/execute.c:303-305 | a tick keeps the table made of stacks if and only if the next terminal has a process or a slot is free |
| ProcessRuns.SixShellsStopTheTick | student-distrib/execute.c:303-305 | from boot six shells can be started on the first terminal, and then the next tick leaves a state that no three stacks describe |
| ProcessRuns.ReserveIsEnough | student-distrib/execute.c:303-305 | a step that keeps one free slot per terminal without a shell can be taken and keeps that reserve |
| ProcessRuns.ReservedRunsGoOn | student-distrib/execute.c:303-305 | a run whose steps all keep the reserve never gets stuck for lack of a slot |
| Kernel.Kernel.DetermineEmpty | student-distrib/execute.c:259-271 | the first inactive slot, or -2 if there is none |
| Kernel.Kernel.SetUpPaging | student-distrib/page.c:67-86 | the directory entry maps the 4 MB frame of the slot, present, writable, for users |
| Kernel.Kernel.CreatePcb | student-distrib/execute.c:202-215 | the process fields of the slot's record and the terminal's count, every other record unchanged |
| Kernel.Kernel.Check | student-distrib/execute.c:63-80 | a program is accepted if and only if it is found, long enough, carries the magic bytes and has an entry point, which is bytes 24 to 27 of its file |
| Kernel.Kernel.Execute | student-distrib/execute.c:47-113 | execute has exactly the specified effect on table, terminals, running process, kernel stack and paging, and the specified status; the program loaded is the whole file, entered where bytes 24 to 27 say |
| Kernel.Kernel.Start | student-distrib/execute.c:88-109 | the end of execute: process record, registers of the caller, switch |
| Kernel.Kernel.Halt | student-distrib/execute.c:120-174 | halt has exactly the specified effect and yields the launcher's saved registers, or loads a new shell in place of a base shell |
| Kernel.Kernel.Scheduler | student-distrib/execute.c:278-325 | a tick has exactly the specified effect and yields the next process's saved registers, or loads the terminal's first shell |
| GrepSpec.MatchesWhenEnclosed | syscalls/ece391grep.c:42-46 | a line matches if and only if the pattern is not empty and the line is some text, the pattern and some text |
| GrepSpec.MatchesSomewhere | syscalls/ece391grep.c:42-46 | that is so if and only if comparing the pattern at every place of the line finds it at one |
| GrepSpec.MatchingOne | syscalls/ece391grep.c:42-51 | of a single line the search finds that line if the nonempty pattern stands in it somewhere, and nothing otherwise |
| GrepSpec.MatchingSplit | syscalls/ece391grep.c:29-57 | of two lists of lines one after the other it finds what it finds of each, in order |
| GrepSpec.LinesMakeText | syscalls/ece391grep.c:30-32 | the lines of a text hold no newline and, with one behind each, are the text, the last one possibly unterminated |
| GrepSpec.ReportOne | syscalls/ece391grep.c:47-50 | a found line is printed as the file's name, a colon, the line and a newline |
| GrepSpec.ReportSplit | syscalls/ece391grep.c:47-50 | the report of several lines is their reports one after the other |
| GrepSpec.ShortLinesExact | syscalls/ece391grep.c:20-60 | lines of at most 1024 bytes are found exactly as in the whole text |
| GrepSpec.CleanCutsExact | syscalls/ece391grep.c:33-38 | with a stale newline behind the window, lines that fit are found as in the whole text if the cuts fall between lines |
| GrepSpec.UncleanCutFound | syscalls/ece391grep.c:33-38 | if a cut falls inside a line, some one-byte pattern shows it: the search of the whole text finds something else |
| GrepSpec.StreamingIsExact | syscalls/ece391grep.c:20-60 | the streaming search equals the plain one for every pattern if and only if no line is longer than 1024 bytes and, with a stale newline behind the window, its cuts fall between lines |
| GrepSpec.StaleNewlineCuts | syscalls/ece391grep.c:13 | two lines of 600 bytes, of which a stale newline has the second cut in its middle |
| GrepSpec.LongLineFound | syscalls/ece391grep.c:22 | a longer line has a byte by which the plain search finds the line whole |
| GrepSpec.PiecesFit | syscalls/ece391grep.c:13 | nothing the streaming search finds is longer than the window |
| Grep.Strcpy | syscalls/ece391support.c:14-17 | copying a string down over itself moves its bytes and terminator and leaves the rest |
| Grep.Strncmp | syscalls/ece391support.c:35-46 | 0 if and only if the pattern occurs at that place of the line |
| Grep.SearchLine | syscalls/ece391grep.c:42-51 | a line is found if and only if the pattern is not empty and the line is some text, the pattern and some text |
| Grep.LineEnd | syscalls/ece391grep.c:30-32 | the end of the line that starts at a place |
| Grep.FinishLine | syscalls/ece391grep.c:41-51 | a line is reported once if it matches and not otherwise, and one byte of the window changes |
| Grep.Carry | syscalls/ece391grep.c:35-37 | the line in progress stands at the front of the window afterwards |
| Grep.CarryRest | syscalls/ece391grep.c:33-38 | carrying the line in progress loses nothing of what is due |
| Grep.EndLine | syscalls/ece391grep.c:40-56 | a finished line moves its share from what is due to what has been found |
| Grep.NextLine | syscalls/ece391grep.c:30-56 | handling one line moves its share from what is due to what has been found |
| Grep.ScanWindow | syscalls/ece391grep.c:28-57 | one pass over the window finds what is due of it and terminates |
| Grep.ReadAndScan | syscalls/ece391grep.c:21-59 | one read and its pass lose nothing and find nothing twice, wherever the read falls |
| Grep.SearchText | syscalls/ece391grep.c:20-60 | for any NUL-free text and any initial window the output is the report of the pieces found, in order, and both loops terminate |
| Grep.DoOneFile | syscalls/ece391grep.c:9-66 | the output is exactly the report, in file order, of the lines in which the pattern stands when the search is exact for the file and the window, and that of the matching pieces otherwise |
| FileSystem.ContentsAreBlocks | student-distrib/filesystem.c:77-107 | the flat file is its blocks one after the other, cut to its length |
| FileSystem.BlockBytes | student-distrib/filesystem.c:87 | within a block the bytes of a file lie together |
| FileSystem.ReadCount | student-distrib/filesystem.c:69-76 | a read yields no more than was asked for or is left, and less than asked for only if it reaches the end |
| FileSystem.CopyRange | student-distrib/filesystem.c:77-107 | the block-by-block copy delivers the wanted bytes of the flat file, looks up no block past the file's last, and changes nothing else |
| FileSystem.ReadData | student-distrib/filesystem.c:65-108 | the count is the smaller of the length and what is left, 0 past the end, -1 for a bad inode or buffer; exactly these bytes are copied |
| FileSystem.FilledSlice | student-distrib/filesystem.c:65-108 | the buffer after a read as one slice of the file between its old parts |
| Directory.CutIsLongest | student-distrib/lib.c:602-616 | the string compared is the longest front of at most n bytes without a NUL |
| Directory.Strncmp | student-distrib/lib.c:602-616 | 0 if and only if the C strings, cut at n bytes, are equal |
| Directory.FindEntry | student-distrib/filesystem.c:28-35 | the first entry whose name agrees as a C string cut at 32 bytes |
| Directory.LookupIsFirst | student-distrib/filesystem.c:28-35 | a name is looked up to the first entry that agrees with it in the first 32 bytes |
| Directory.ReadDentryByName | student-distrib/filesystem.c:25-36 | the look-up returns that first entry, or fails if there is none |
| Directory.ListingFrom | student-distrib/filesystem.c:217-237 | what repeated reads of a directory deliver from any position |
| Directory.ListingIsComplete | student-distrib/filesystem.c:217-237 | reading from the start yields every name once and in order if and only if there are fewer than 63 entries; otherwise all but the last |
| DescriptorSpec.DoKeepsSound | student-distrib/syscall.c:77-143 | every call keeps descriptors 0 and 1 open, closed descriptors blank, inode -1 on exactly the RTC descriptors, and file positions within the file |
| DescriptorSpec.OpenIsExact | student-distrib/syscall.c:77-116 | open succeeds if and only if a descriptor is free and the name is that of an entry of type 0, 1 or 2; it takes the lowest free descriptor, stores the entry's inode number for a file, 0 for a directory and -1 for the RTC, starts at position 0 and changes no other descriptor |
| DescriptorSpec.CloseIsExact | student-distrib/syscall.c:124-143 | close succeeds if and only if the descriptor is open and not 0 or 1, changes no other, and reads of it then fail |
| DescriptorSpec.ReadIsExact | student-distrib/syscall.c:28-40 | a read fails if and only if the descriptor is bad, closed or a standard one, the count negative or the inode number bad, and then changes nothing; otherwise only the position changes: by the count for a file, by one name for a directory, to 0 for the RTC |
| DescriptorSpec.InterruptIsExact | student-distrib/rtc.c:30-36 | an interrupt advances the lowest RTC descriptor and no file or directory position |
| DescriptorSpec.ReadsAreConsecutive | student-distrib/filesystem.c:164-174 | in every run the pieces read from an open file join to the file between the old and the new position, never past the end |
| DescriptorSpec.StaysOpen | student-distrib/syscall.c:28-143 | in every run without a close of it an open descriptor changes its position only |
| DescriptorSpec.OpenedFileIsRead | student-distrib/syscall.c:95 | in every run after a file was opened by name and before it is closed, the bytes read from it are the front of the file of the name's entry up to the position |
| DescriptorSpec.NamesAreConsecutive | student-distrib/filesystem.c:217-237 | in every run the names read from an open directory are those between the old and the new position |
| DescriptorSpec.OpenedDirectoryIsListed | student-distrib/syscall.c:95-97 | a directory opened by name is listed from its first entry |
| DescriptorSpec.OpenedRtcCounts | student-distrib/syscall.c:103-106 | an RTC opened by name counts an interrupt, in every later run, if and only if no lower descriptor is an RTC's |
| Descriptors.Process.constructor | student-distrib/execute.c:185-201 | a new process has standard input and output open and all other descriptors blank |
| Descriptors.Process.Open | student-distrib/syscall.c:77-116 | open has exactly the specified effect and status |
| Descriptors.Process.Close | student-distrib/syscall.c:124-143 | close has exactly the specified effect and status |
| Descriptors.Process.FileRead | student-distrib/filesystem.c:164-174 | the next piece of the file is delivered and the position moves by its length |
| Descriptors.Process.DirectoryRead | student-distrib/filesystem.c:217-237 | the next whole name field is delivered, whatever length was asked for |
| Descriptors.Process.Read | student-distrib/syscall.c:28-40 | read has exactly the specified effect and status on files, directories, the RTC and bad descriptors, and delivers the next piece of a file |
| Descriptors.Process.RtcInterrupt | student-distrib/rtc.c:30-36 | one process's share of an RTC interrupt |
| Descriptors.Process.GiveUp | student-distrib/execute.c:136-141 | a halted process has no open descriptor left |
| Descriptors.RtcIntrHandler | student-distrib/rtc.c:15-44 | an interrupt counts once for every active process and for no other |
| Descriptors.Cat | syscalls/ece391cat.c:21-28 | the loop ends on whatever is open; of a file it writes the rest exactly once, of the RTC nothing, and a bad inode number ends it with status 3 and a message |
| Descriptors.CatNamed | syscalls/ece391cat.c:9-31 | cat of a name writes exactly the file of the name's entry, or that it is not found |
| Descriptors.NextRow | syscalls/ece391ls.c:18-25 | one turn of the loop writes the next name field and a newline |
| Descriptors.Ls | syscalls/ece391ls.c:18-26 | the loop ends and writes the listing from where the descriptor stood; from the start every name once and in order, but for the last of 63 |
| Descriptors.LsHere | syscalls/ece391ls.c:8-29 | ls writes every name of the directory once and in order, but for the last of 63, or that the directory does not open |
| BlinkPhase.PhaseInClosedForm | fish/blink.S:64-86 | an entry is on after n ticks if and only if n modulo the period is below its on-length; countdown and status in closed form for all 16-bit lengths |
| BlinkPhase.ClocksStayTogether | fish/blink.S:64-86 | entries with equal clocks keep them equal through every tick |
| BlinkSpec.FirstFree | fish/fish.c:160-170 | the slot given out is the first whose location is 0 |
| BlinkSpec.FirstAt | fish/blink.S:359-374 | the entry found is the first one of the list at the location |
| BlinkSpec.AddKeepsExactly | fish/blink.S:105-184 | an accepted add puts an entry with the caller's location, characters and lengths, on and with its on-length to go, in front of the others in the first free slot, and keeps list and pool in agreement if and only if its location is not 0 |
| BlinkSpec.RemoveUndoesAdd | fish/blink.S:187-223 | a remove at the location of the entry just added gives back the list as it was |
| BlinkSpec.ZeroLocationLoops | fish/blink.S:131-133 | two adds at location 0 make a slot its own successor |
| BlinkSpec.AddRefusedOnlyWhenFull | fish/blink.S:131-145 | an add is accepted if and only if its location is below 2000 and not all 2000 slots are on the list |
| BlinkSpec.RemoveKeeps | fish/blink.S:187-223 | a remove deletes exactly the first match, wipes its slot and keeps the order of the rest and the agreement |
| BlinkSpec.SyncKeeps | fish/blink.S:248-275 | a sync gives the target the lengths, countdown and status of the source, keeps its location and characters and changes no other entry |
| BlinkSpec.TickKeeps | fish/blink.S:49-99 | a tick changes every listed entry's clock once, and neither the list nor any other slot |
| BlinkSpec.DoKeeps | fish/blink.S:101-300 | list and pool agree after every request: acyclic, distinct slots, on the list if and only if the location is nonzero |
| BlinkSpec.StayInStep | fish/blink.S:267-275 | entries with equal clocks stay equal in every run until one of them is removed or synced |
| BlinkSpec.SyncPutsInStep | fish/blink.S:267-275 | a successful sync gives its two entries equal clocks |
| BlinkSpec.OnlyTicksCount | fish/blink.S:49-99 | in every run an entry neither removed nor synced depends on the number of ticks alone |
| BlinkSpec.AddedPhase | fish/blink.S:135-138 | in every run after an add the status of the entry is 1 if the ticks since, modulo its period, fall in its on part, and 0 otherwise; a length of 0 or above 32768 counts as one tick |
| BlinkList.BlinkList.constructor | fish/fish.c:28 | the list starts empty with every slot wiped |
| BlinkList.BlinkList.Malloc | fish/fish.c:160-170 | the first free slot, or null if there is none |
| BlinkList.BlinkList.Add | fish/blink.S:105-184 | the linked structure does exactly what the specified add does |
| BlinkList.BlinkList.Find | fish/blink.S:351-379 | following the links finds the first entry at the location in the low word of the argument, or ends |
| BlinkList.BlinkList.FindPrev | fish/blink.S:206-212 | the link that points at a listed entry is found without running off the list |
| BlinkList.BlinkList.Remove | fish/blink.S:187-237 | unlinking and wiping do exactly what the specified remove does at the location in the low word of the argument |
| BlinkList.BlinkList.Sync | fish/blink.S:240-300 | the four copies do exactly what the specified sync does from the high word to the low word of the argument, also when both name the same entry |
| BlinkList.BlinkList.Tasklet | fish/blink.S:49-99 | the walk visits every listed entry once and ends |
| Numerals.NumeralRoundTrip | student-distrib/lib.c:374-405 | the digits parse back to the value and lead with 0 only for 0, in every radix from 2 to 36 |
| Numerals.NumeralDigits | student-distrib/lib.c:392-397 | the last digit is 0 to 9 or A to Z for the remainder by the radix, the others are the digits of the quotient |
| Numerals.NumeralLength | student-distrib/lib.c:392-397 | a number below the n-th power of the radix has at most n digits |
| Numerals.DigitMoves | student-distrib/lib.c:393-396 | writing the lowest digit moves it from the number to the reversed digits |
| Numerals.Strrev | student-distrib/lib.c:411-423 | the string is reversed in place and nothing else changes |
| Numerals.Itoa | student-distrib/lib.c:374-404 | the buffer holds the digits of the value as a string and changes nowhere else |
| Numerals.PrintHex | student-distrib/lib.c:95-105 | exactly eight hexadecimal digits with the value, zeros before its own digits |

## Left out

- The screen after backspaces with interleaved terminals or after Ctrl with L: the shared undo buffers are neither swapped nor reset, so no exactness holds. What each call of `putc` does there is still described, and the lines stay exact.
- TextConsole.TextConsole.TerminalWrite: asks that every backspace of the text finds its character in the undo buffer; elsewhere the code leaves its arrays.
- TextConsole.TextConsole.KeyPress: asks for room in the key buffer, which the code does not check before it stores a key.
- Desk.ScreensAreIndependent: outputs that start at another terminal's cursor are left to `Desk.OutputIsExact`; what such a run leaves on the screens is not described.
- Editing across the point where the display buffer fills up (2000 characters) or the key buffer does (128 keys): the editing results ask that both have room.
- Which terminal an Enter wakes: the read-enable flag is global; `TextConsole.TerminalRead` starts once the wait is over.
- Which code stands for which character, and the state of the modifier keys: small finite tables; the model starts from the character, or from a code that has none.
- Descriptors.Process.Read: descriptor 0 is excluded, because standard input is `TextConsole.TerminalRead`; a buffer must hold what a file or directory read stores; an RTC read starts once its wait is over.
- `write`, `rtc_write` and its rates, and the operation tables' `open` and `close`: they change none of the modelled state.
- `parse_cmd`, `getargs` and the argument buffer: `execute` depends on a command only through the name and the verdict that parsing yields, so a command enters as these.
- Kernel.Kernel.CreatePcb: leaves out the argument pointer; the descriptor table of the new process is `Descriptors.Process.constructor`.
- `vidmap`, `set_vid_map` and the `vidmap` flags: switching and halting leave the user mapping temporarily wrong.
- Messages that `execute`, `halt` and the other system calls print; interrupts that land inside them.
- Kernel.Kernel.Halt: asks for a startable shell if the process that halts is a base shell; what the code does otherwise, entering a parent record of number -1, is not modelled. The closing of descriptors is `Descriptors.Process.GiveUp`.
- Memory.Memmove: leaves out the processor's direction flag, which the code leaves set after a downward move.
- FileSystem.ReadData: asks that offset plus length does not wrap at 32 bits.
- Positions, counters and the numbers of pending interrupts are unbounded integers.
- Descriptors.Cat: of a directory only that the loop ends; what it writes then depends on what the buffer held.
- Descriptors.LsHere: asks that the entry ".", if there is one, is a directory.
- Grep.DoOneFile: files and patterns without NUL bytes; the two messages for a failing read or close, which cannot fail on a regular file just opened, are not modelled.
- Memory is copied in character cells (glyph and attribute) where the code copies bytes.
- Glyphs drawn by the blink requests, the find request, and `ece391_itoa`, a copy of `itoa`.
- Booting, descriptor tables, ports, interrupt controller, timer and clock programming, exception handlers, tests and demo programs.
