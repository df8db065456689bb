# A verified model of the three-terminal teaching kernel

The repository is a small x86 kernel with three virtual terminals, a timer-driven round-robin
scheduler, six process slots, a read-only file system and a few user programs. This project models
its hard parts in Dafny and proves what they keep, over every input and every run. Each keyboard
interrupt, timer interrupt and system call is one atomic step.

| module | what it models |
|---|---|
| `Common` | the number of terminals, sequences without repeats |
| `CStrings`, `Memory`, `Numbers` | string comparison, the phased memory routines, number printing |
| `Console` | one 80 by 25 screen: printing, scrolling, clearing; the unbounded page it is a window on |
| `Keyboard`, `KeyLaws`, `LineEditor` | the key map, the branches of the key handler, the line being typed |
| `Terminals`, `Isolation`, `TerminalLaws` | three terminals on one display as a state machine; each on its own; what each event changes and who executes |
| `Driver` | the same code in place, on video memory, saved screens and keyboard buffers |
| `Scheduler` | the choice of the next executing terminal, and its fairness |
| `Paging`, `Processes`, `ChainMachine`, `ProcessForest`, `ProcessContext`, `Kernel` | page tables, the process table, the push/pop machine it stands for, parent links, the running process's address space; the same in place |
| `FileSystem`, `Directory` | block reads, lookups and listing |
| `StoredNames`, `Descriptors`, `SequentialReads`, `DescriptorDriver` | the file names a PCB stores, open, close, read and write, what a sequence of reads delivers; the same in place |
| `SystemCalls` | write of a process, on the machine |
| `TextLines`, `Grep` | files as lines; the line search of grep through its fixed buffer |
| `Blink`, `BlinkList`, `BlinkDriver`, `Frames` | the list of blinking characters of fish, threaded through an array, and the two-file zip that fills it |

Code that changes state step by step is a class or an array method here, with the loops and branches
of the original, proved equal to a function of the old state; the theorems are about those functions
and about runs of them.

## What is proved

* Terminal isolation. After any run of output, ticks, key presses, reads and switches, the view of
  every terminal (the display if it is shown, its saved screen if not) is what its own acts alone
  make of it (`Isolation.Isolated`). For runs of output, ticks and switches among active terminals
  that is one console function folded over the terminal's own characters, and it is the last 25 rows
  of the page those characters would fill (`Isolation.OutputIsolated`, `Isolation.TerminalIsWindow`).
* Cursor safety. Over every run, every live and saved cursor addresses one of the 2000 cells, both
  indices of the line editor agree and are at most 128, and no typed line holds a newline or a NUL
  (`Isolation.Run`, from `Isolation.BootReady`).
* Line editor. Typing and backspacing is a push/pop list capped at 128, a backspace works if and only
  if a condition on the cursor holds, and the line read after Enter is that list
  (`LineEditor.EditsAreList`, `LineEditor.BackspaceExact`, `LineEditor.TypeEnterRead`).
* Process forest. The parent links form one disjoint finite chain per active terminal, together
  exactly the slots in use, in every state of a run if and only if the run meets no failed execute
  (`ProcessForest.RunExact`); and over every such run they are the lists a plain push/pop machine ends
  with (`ProcessForest.RunTells`).
* Context agreement. The user page and the kernel stack belong to the current process in every state
  of every run, failed executes included, as long as there is a current process
  (`ProcessContext.ContextAlways`), and there is one throughout if and only if every event meets a
  guard (`ProcessContext.SturdyRunExact`, `ProcessContext.RunAgrees`).
* Round robin. Every k consecutive ticks run each of the k active terminals exactly once, over every run
  that opens no terminal, whatever comes between the ticks (`TerminalLaws.RunRoundRobin`).
* Files. Block reads are reads of the file's blocks laid end to end, at an offset if and only if the
  offset is not 4096 (`FileSystem.OffsetExact`). An open file stays readable over a run if and only if no call closes it
  or damages its stored name (`SequentialReads.RunReadingExact`), and what it has delivered is the file
  between its positions (`SequentialReads.ReadsConcatenate`). The two directory lookups agree
  (`Directory.LookupsAgree`).
* grep prints exactly the matching lines, once each and in order (`Grep.DoOneFile`), and these are the
  lines that contain the pattern if and only if a condition on the pattern holds (`Grep.PatternExact`).
* The blink list refines a plain sequence over every run, and a blinker's state has a closed form in
  the number of ticks (`BlinkList.RunRefines`, `BlinkList.BlinksInTime`).

## Where the code departs from its evident intent

The code is modelled as it is. Where a property fails because of it, a lemma says exactly when it holds.

* `read_data` starts in block 0 at offset 4096 (`FileSystem.OffsetExact`).
* A failed name lookup in `execute` frees every slot, and a file that is not executable leaves its
  slot taken (`ProcessForest.FailedExecuteBreaks`).
* Backspace at the origin types a space, and below an empty row it only moves the cursor
  (`LineEditor.OriginNeverPops`, `LineEditor.BackspaceExact`). After backspacing over a full row the
  column is 80, which `Console.CursorOk` allows above the last row.
* After terminal 2 the scheduler looks at a fourth terminal (`Scheduler.SelectNext`).
* A newly opened terminal starts with the line typed in the one left behind (`Isolation.SwitchKeepsLines`).
* `terminal_init` blanks one cell of each saved screen, not all of them (`Driver.Terminal.constructor`).
  No view shows those cells, because opening a terminal clears it first (`Isolation.StepReady`).
* `keyboard_read` looks at the byte before its buffer, and returns nothing if that is a newline
  (the parameter `before`).
* `mp1_ioctl_sync` always shows the off character (`BlinkList.SyncShownExactly`), and an add at
  location 0 leaves its slot looking free (`BlinkList.StepExact`).
* grep compares a signed pattern byte with an unsigned file byte, so a pattern that starts above 127
  never matches, nor does an empty one (`Grep.PatternExact`).
* A file name of 32 characters fills its row of `file_name`, and its NUL lands in the next row or, from
  descriptor 7, in the saved ESP0. The next descriptor then has no name to look up; and once the next
  descriptor is opened the 32-character name runs on and is not found
  (`StoredNames.StoreExact`, `SequentialReads.LongNameDamages`).
* `keyboard_read` waits for the executing terminal's Enter but hands out and empties the line of the
  terminal shown (`LineEditor.OwnLineExact`).
* A program that reads byte by byte, as fish does, gets byte 0 again in place of byte 4096
  (`SequentialReads.ByteReads`).
* Key 40 unshifted gives a backquote where its shifted double quote suggests an apostrophe (`Keyboard.Symbol`).

## Model

| member | source | states |
|---|---|---|
| CStrings.StrLen | student-distrib/lib.c:421-428 | the length is that of the text before the first NUL |
| CStrings.StrNCmp | student-distrib/lib.c:612-628 | zero if and only if the two texts, each cut to n characters, are the same; otherwise the difference of the signed characters where they first differ |
| CStrings.UserStrNCmp | syscalls/ece391support.c:35-46 | the user library's different loop decides the same relation, with unsigned characters in the difference |
| Console.Put | student-distrib/lib.c:211-235 | one character keeps the screen whole and the cursor on an existing cell |
| Console.WindowPrint | student-distrib/lib.c:211-235 | writing a character on the screen is printing it on an endless page and looking at its last 25 rows |
| Console.ScreenIsWindow | student-distrib/lib.c:211-235 | after any text the screen is the last 25 rows of everything printed, wherever it started |
| Console.ClearedIsWindow | student-distrib/lib.c:21-34 | a cleared screen is the window on an empty page |
| Console.ScrollInPlace | student-distrib/lib.c:294-307 | the column-by-column scroll, reading rows it is about to overwrite, moves every old row up one and blanks the last |
| Console.ScrollColumn | student-distrib/lib.c:299-306 | one column of the scroll, with the other columns left as they were |
| Console.ClearInPlace | student-distrib/lib.c:27-30 | every cell becomes blank with the standard attribute |
| Console.RepaintInPlace | student-distrib/scheduler.c:39-42 | attributes are rewritten and no character changes |
| Console.RepaintPlain | student-distrib/scheduler.c:39-42 | on a screen whose attributes are all standard the rewrite changes nothing |
| Console.LastCharIs | student-distrib/lib.c:347-355 | the answer is the column before the row's first NUL, or the last column of a full row |
| Console.FindLastChar | student-distrib/lib.c:347-355 | the scan of video memory finds that column |
| Keyboard.Decode | student-distrib/keyboard.c:196-277 | a backspace action only away from the origin, a switch only to terminals 0 to 2, a typed character is never NUL or newline and only below 128 characters |
| Keyboard.DecodeChar | student-distrib/keyboard.c:271-412 | the same for the character keys, for either case of a letter |
| Keyboard.StepBack | student-distrib/keyboard.c:457-466 | backing over a line start lands on an existing cell, never the last one, and changes no cell |
| Keyboard.TypeEchoesOne | student-distrib/keyboard.c:393-423 | a typed key shows exactly one character, itself, and appends it to the typed line |
| Keyboard.EraseEchoesOne | student-distrib/keyboard.c:454-475 | an effective backspace blanks exactly one cell and drops the last typed character; under an empty row it only moves up |
| Keyboard.EditorStaysOk | student-distrib/keyboard.c:291-304 | typing, Enter and backspace keep the cursor safe, the two indices equal and at most 128, and NUL and newline out of the typed text |
| Keyboard.UptoStops | student-distrib/keyboard.c:106-111 | where the copying loop of keyboard_read stops: at the first NUL or just after the first newline |
| Keyboard.EnterThenRead | student-distrib/keyboard.c:85-118 | a read directly after Enter returns the typed line and a newline, cut to nbytes |
| KeyLaws.KeyTable | student-distrib/keyboard.c:37-75 | the characters of every key code, shifted and not, as the rows of a keyboard |
| KeyLaws.CommandsAre | student-distrib/keyboard.c:196-391 | exactly which codes, with which modifiers, are backspace, Enter, Ctrl+L, a debug key with its digit, a modifier, or a switch, and to which terminal |
| KeyLaws.EraseNothing | student-distrib/keyboard.c:455 | with nothing typed, backspace changes nothing |
| KeyLaws.EraseInRow | student-distrib/keyboard.c:466-472 | within a row backspace goes back one column, blanks that cell, and drops the last character |
| KeyLaws.EraseAcross | student-distrib/keyboard.c:457-472 | at the start of a row backspace goes to the column of the row above's first NUL and blanks that cell, or column 80 of a full row; above an empty row it only moves |
| KeyLaws.TypedCursor | student-distrib/keyboard.c:399-423 | where a typed character goes and leaves the cursor, in the last column, the last cell and column 80 too |
| KeyLaws.TypeThenBackspace | student-distrib/keyboard.c:454-475 | backspace directly after a typed key restores the cursor if and only if the key was typed before the last column, and then all of the screen and line but the typed cell, which is blank |
| KeyLaws.EnterIsNewline | student-distrib/keyboard.c:291-298 | Enter does to the screen what printing a newline does, and stores a newline behind the line |
| KeyLaws.LineEnds | student-distrib/lib.c:214-233 | bytes 10 and 13 go to the next row and write nothing; every other byte is written at the cursor |
| LineEditor.DecodeAgrees | student-distrib/keyboard.c:206-248 | modifier keys and letters mean what a plain reference says: upper case exactly when one of shift and caps lock is on |
| LineEditor.TypedKey | student-distrib/keyboard.c:393-423 | every key that is not a command acts on the draft as a push, and on a full line as nothing |
| LineEditor.BackspaceExact | student-distrib/keyboard.c:199-204 | backspace pops the draft if and only if the cursor is not at the origin and, with text typed, not at the left edge below a row that starts with NUL |
| LineEditor.OriginNeverPops | student-distrib/keyboard.c:199-204 | at the origin backspace never pops the line |
| LineEditor.EmptyAboveExact | student-distrib/lib.c:347-355 | the row above counts as empty exactly when its first cell is NUL |
| LineEditor.EditsAreList | student-distrib/keyboard.c:183-432 | any run of typing and working backspaces leaves exactly the push/pop list, at most 128 characters, without newline or NUL |
| LineEditor.TypeEnterRead | student-distrib/keyboard.c:85-118 | a line typed, edited and entered is the line a program reads, plus its newline, cut to nbytes |
| LineEditor.ReadsShownLine | student-distrib/keyboard.c:85-118 | a read after Enter returns the line typed in the terminal shown, whichever terminal the reader belongs to |
| LineEditor.OwnLineExact | student-distrib/keyboard.c:86-87 | readers of a terminal get their own terminal's line in every state if and only if it is the one shown |
| LineEditor.NothingRead | student-distrib/keyboard.c:106 | if the byte before the buffer is a newline, nothing is read |
| Terminals.Boot | student-distrib/kernel.c:155-182 | clearing, keyboard_init and terminal_init give safe cursors and empty lines on all three terminals |
| Terminals.Fresh | student-distrib/terminal.c:96-115 | what terminal_init leaves in a terminal is inactive and safe, though all but one cell is not blanked |
| Terminals.CopyLine | student-distrib/terminal.c:210-212 | saving 128 of the 129 buffer bytes still saves the whole typed line |
| Terminals.Save | student-distrib/terminal.c:206-218 | saving keeps every cursor and line safe |
| Terminals.Restore | student-distrib/terminal.c:226-238 | restoring keeps every cursor and line safe |
| Terminals.OnView | student-distrib/terminal.c:50-53 | output lands in the executing terminal's view, wherever that is kept, and in no other |
| Terminals.SwitchTo | student-distrib/terminal.c:123-158 | a switch keeps every cursor and line safe, whether it opens a terminal or not |
| Terminals.TickTo | student-distrib/scheduler.c:26-42 | a tick keeps every cursor and line safe |
| Terminals.Press | student-distrib/keyboard.c:183-432 | any key code in any safe state leads to a safe state |
| Terminals.AfterRead | student-distrib/keyboard.c:113-116 | a read leaves an empty line and a safe state |
| Terminals.Step | student-distrib/terminal.c:41-69 | every event leads from a safe state to a safe state |
| Isolation.BootReady | student-distrib/kernel.c:196-197 | the state after the first shell starts has an active terminal, safe cursors and plain visible screens |
| Isolation.SwitchIsolated | student-distrib/terminal.c:123-158 | a switch to an active terminal changes no view at all; opening one changes only the new one's, to a cleared screen with at most execute's message |
| Isolation.SwitchKeepsLines | student-distrib/terminal.c:130-151 | a switch keeps every typed line, except that an opened terminal inherits the one left behind |
| Isolation.ThereAndBack | student-distrib/terminal.c:149-151 | switching away and back restores every view and every typed line |
| Isolation.TickIsolated | student-distrib/scheduler.c:37-42 | a tick changes no view |
| Isolation.DumpIsolated | student-distrib/keyboard.c:306-374 | a debug key's output reaches the shown or the executing terminal, character by character, and no other |
| Isolation.DoIsolated | student-distrib/keyboard.c:183-432 | whatever a key does, each view changes by its own terminal's acts only |
| Isolation.StepIsolated | student-distrib/terminal.c:41-69 | one event of any kind changes each view by that terminal's own acts only |
| Isolation.StepReady | student-distrib/lib.c:21-53 | every event keeps an active terminal, cursor safety and standard attributes on every visible or active screen |
| Isolation.Run | student-distrib/keyboard.c:183-432 | over every run of events from a ready state all cursors stay on the screen and all line indices agree |
| Isolation.Isolated | student-distrib/terminal.c:41-69 | terminal isolation over every run, displayed or not: the view is the terminal's own acts applied in order |
| Isolation.OutputIsolated | student-distrib/lib.c:211-267 | over runs of output, ticks, reads and switches the view is the console function folded over the terminal's own characters |
| Isolation.TerminalIsWindow | student-distrib/lib.c:211-339 | a terminal that starts cleared always shows the last rows of the page its own output would fill |
| TerminalLaws.WriteLaw | student-distrib/terminal.c:41-69 | output changes the executing terminal's view, by its text, and no line, flag or other view |
| TerminalLaws.TickLaw | student-distrib/scheduler.c:28-42 | a tick makes the next active terminal the executing one, and changes no view, line or flag |
| TerminalLaws.ReadLaw | student-distrib/keyboard.c:113-116 | a read empties the shown terminal's line, fills the buffer with spaces, and makes the executing terminal wait again; nothing else |
| TerminalLaws.SwitchLaw | student-distrib/terminal.c:149-157 | a switch to an active terminal shows it and changes nothing else |
| TerminalLaws.OpenLaw | student-distrib/terminal.c:130-146 | opening a terminal shows it, makes it execute, clears it, lets it inherit the typed line, and activates it exactly when its shell starts |
| TerminalLaws.EnterLaw | student-distrib/keyboard.c:291-304 | Enter prints a newline in the shown terminal and releases that terminal's reader only |
| TerminalLaws.ClearLaw | student-distrib/keyboard.c:281-289 | Ctrl+L clears the executing terminal and empties the line of the shown one |
| TerminalLaws.DebugLaw | student-distrib/keyboard.c:306-391 | a debug key clears the executing terminal, and each character of its output goes to the shown or the executing terminal as it was sent |
| TerminalLaws.EditLaw | student-distrib/keyboard.c:393-423 | typing and backspacing change the shown terminal only |
| TerminalLaws.ModifyLaw | student-distrib/keyboard.c:206-248 | modifier keys change the modifiers only |
| TerminalLaws.BootLaw | student-distrib/kernel.c:155-197 | at boot the display is blank, terminal 0 alone is active, shown and executing, and nothing has been typed |
| TerminalLaws.ExecIsTicks | student-distrib/scheduler.c:26-48 | over every run that opens no terminal, the executing terminal is the one the number of ticks says, and the active set is unchanged |
| TerminalLaws.RunRoundRobin | student-distrib/scheduler.c:26-48 | over every such run each active terminal executes after exactly one of any k consecutive ticks, at the same tick whatever comes between |
| Driver.Terminal.constructor | student-distrib/terminal.c:96-115 | the initialising loops, with the outer index used in the inner one, leave the state `Fresh` describes |
| Driver.Terminal.PutChar | student-distrib/lib.c:243-267 | the saved screen gets the same character function as the display; nothing else of the terminal changes |
| Driver.Terminal.Scroll | student-distrib/lib.c:320-339 | the saved screen scrolls as the display does |
| Driver.Terminal.Store | student-distrib/terminal.c:206-218 | the saved terminal becomes the display, cursor, indices and first 128 typed bytes |
| Driver.Terminal.Clear | student-distrib/lib.c:42-53 | the saved screen is cleared and its cursor goes home |
| Driver.LineStart | student-distrib/keyboard.c:97-105 | the line starts just after the last newline but one of the typed bytes, or at the start of the buffer when there are fewer |
| Driver.CopyLineOut | student-distrib/keyboard.c:106-112 | the program's buffer gets exactly the line, cut to nbytes, and a NUL; the rest of it is untouched |
| Driver.Machine.constructor | student-distrib/keyboard.c:167-174 | the machine starts in the state `Boot` describes |
| Driver.Machine.PutC | student-distrib/lib.c:211-235 | the display gets one character of the console function; every saved terminal is untouched |
| Driver.Machine.VertScroll | student-distrib/lib.c:294-312 | the display scrolls and nothing else changes |
| Driver.Machine.PutCNoDisplay | student-distrib/lib.c:243-267 | only the executing terminal's saved screen changes, by the console function |
| Driver.Machine.PutS | student-distrib/lib.c:176-185 | a string on the display is its characters in order |
| Driver.Machine.WriteChars | student-distrib/terminal.c:59-65 | the loop, choosing the target anew for each character, writes the whole text to the executing terminal's view |
| Driver.Machine.TerminalWrite | student-distrib/terminal.c:41-69 | fails exactly on a null buffer or negative count, otherwise writes and counts the text cut at its NUL and at nbytes |
| Driver.Machine.Clear | student-distrib/lib.c:21-34 | the executing terminal's view is cleared, wherever it is kept |
| Driver.Machine.SaveTerminalState | student-distrib/terminal.c:206-218 | the shown terminal's struct becomes a copy of the live state |
| Driver.Machine.RestoreTerminalState | student-distrib/terminal.c:226-238 | the live state becomes a copy of the terminal's struct |
| Driver.Machine.SwitchTerminal | student-distrib/terminal.c:123-158 | the whole switch refines the state machine's, both branches |
| Driver.Machine.OpenTerminal | student-distrib/terminal.c:130-147 | opening: shown and executing terminal change before the clear, and the typed line is not reset |
| Driver.Machine.StartShell | student-distrib/syscall.c:405-441 | a started shell activates the shown terminal; with no slot left a message appears on the display |
| Driver.Machine.SwitchTask | student-distrib/scheduler.c:22-48 | the next active terminal executes and its saved screen is repainted, not the display |
| Driver.Machine.KeyboardWrite | student-distrib/keyboard.c:128-140 | echoes exactly the buffer between the two indices and returns their difference, or -1 if they agree |
| Driver.Machine.StepCursorBack | student-distrib/keyboard.c:457-466 | the cursor moves back one, across a line start to just behind the last character above |
| Driver.Machine.EraseCell | student-distrib/keyboard.c:466-472 | one NUL is echoed under the cursor, the cursor stays, the line is one shorter |
| Driver.Machine.HandleBackspace | student-distrib/keyboard.c:454-475 | the helper refines the editor's erase |
| Driver.Machine.TypeKey | student-distrib/keyboard.c:393-423 | the ordinary branch refines the editor's type, scrolling first in the last cell |
| Driver.Machine.EnterKey | student-distrib/keyboard.c:291-304 | Enter moves the cursor, stores a newline behind the line and releases the reader of the shown terminal |
| Driver.Machine.ForgetLine | student-distrib/keyboard.c:114-116 | the line is empty again, byte 128 of the buffer left as it was |
| Driver.Machine.ClearKey | student-distrib/keyboard.c:281-289 | Ctrl+L clears the executing terminal and forgets the line |
| Driver.Machine.DebugKey | student-distrib/keyboard.c:306-391 | Ctrl+1 to Ctrl+5 clear, then print a list of characters by either route |
| Driver.Machine.ReleaseKey | student-distrib/keyboard.c:206-217 | only shift, control and alt releases change a modifier |
| Driver.Machine.CharKey | student-distrib/keyboard.c:271-432 | the branches for character keys refine the decoded action |
| Driver.Machine.KeyboardHandler | student-distrib/keyboard.c:183-432 | the handler, branch by branch, refines one step of the state machine |
| Driver.Machine.KeyboardRead | student-distrib/keyboard.c:85-118 | the program gets the line, its count and a NUL; the kernel's line is emptied and the executing terminal waits for Enter again |
| Scheduler.SelectNext | student-distrib/scheduler.c:26-36 | the loop ends at the next active terminal, except that after terminal 2 it stops at the entry past the third if that reads active |
| Scheduler.NextIsFirst | student-distrib/scheduler.c:26-36 | the chosen terminal is the first active one in cyclic order |
| Scheduler.OneRound | student-distrib/scheduler.c:26-36 | in one round from any terminal each active terminal executes exactly once |
| Scheduler.RoundRobin | student-distrib/scheduler.c:26-36 | any k consecutive ticks run each of the k active terminals in exactly one of them |
| Scheduler.TurnOf | student-distrib/scheduler.c:26-36 | of any k consecutive ticks exactly one is a given active terminal's |
| Paging.MapRefines | student-distrib/paging.c:72-79 | translation after map: the 4 MB region goes to the new frame and every other address is translated as before |
| Paging.MapOpens | student-distrib/paging.c:72-79 | after map the region is readable and writable for user programs, and no other region's rights change |
| Paging.MapVideoOpens | student-distrib/paging.c:88-106 | both entries map_w_pt writes are readable and writable for user programs |
| Paging.MapVideoRefines | student-distrib/paging.c:88-106 | translation after map_w_pt: only regions behind the shared video table are affected, and of those only the first page unless newly mapped |
| Paging.PageTables.Map | student-distrib/paging.c:72-79 | one directory entry changes |
| Paging.PageTables.MapWithTable | student-distrib/paging.c:88-106 | one directory entry and the first entry of the video table change |
| Processes.FirstFree | student-distrib/syscall.c:560-569 | the lowest free slot, or none |
| Processes.Frame | student-distrib/syscall.c:466 | every slot's frame is aligned to 4 MB |
| ProcessForest.ChainUnique | student-distrib/syscall.c:438-443 | the parent links determine a terminal's chain |
| ProcessForest.FirstShell | student-distrib/kernel.c:196-197 | the first shell is slot 0, alone in terminal 0 |
| ProcessForest.ExecuteKeeps | student-distrib/syscall.c:405-447 | a successful execute puts a slot that was on no chain on top of the executing terminal's chain, as current process; the other chains are as they were |
| ProcessForest.OpenKeeps | student-distrib/terminal.c:130-146 | opening a terminal gives it a chain of one free slot, and shows and runs it |
| ProcessForest.HaltChildKeeps | student-distrib/syscall.c:269-288 | halting a process with a parent takes exactly it off its chain, frees exactly its slot, and makes the next of the chain current |
| ProcessForest.HaltRootKeeps | student-distrib/syscall.c:275-278 | halting a terminal's last shell leaves it a chain of one, in the lowest slot free by then |
| ProcessForest.TickKeeps | student-distrib/scheduler.c:26-48 | a tick moves no process and makes the head of the next active terminal's chain current |
| ProcessForest.FailedExecuteBreaks | student-distrib/syscall.c:421-431 | an execute that fails after taking a slot always breaks the forest, on either failing path |
| ProcessForest.GoodKeeps | student-distrib/syscall.c:405-447 | every good event keeps the forest |
| ProcessForest.StepTells | student-distrib/syscall.c:269-288 | every good event does to the table what push, pop and two terminal numbers do to plain lists of slots |
| ProcessForest.RunTells | student-distrib/syscall.c:405-447 | over every good run the table stands for the lists the plain machine ends with |
| ProcessForest.TellsOne | student-distrib/syscall.c:438-443 | the machine a table stands for is the only one |
| ProcessForest.FailedExecuteIs | student-distrib/syscall.c:421-431 | a failed lookup frees every slot, a bad executable takes the lowest free one, and nothing else changes |
| ProcessForest.FullExecuteIs | student-distrib/syscall.c:405-409 | with no slot left nothing changes |
| ProcessForest.FailedRestartIs | student-distrib/syscall.c:275-285 | when the restart of a last shell fails, the shown terminal is inactive and the current process is -1 |
| ProcessForest.TickIs | student-distrib/scheduler.c:26-48 | a tick runs the next active terminal's current process and changes nothing else, whatever the state of the chains |
| ProcessForest.TicksAre | student-distrib/scheduler.c:26-48 | after k ticks the terminal whose turn it is executes its own current process |
| ProcessForest.StepExact | student-distrib/syscall.c:269-288 | one event of any kind keeps the forest if and only if it is good: no failed execute, and a free slot where a terminal is opened |
| ProcessForest.RunExact | student-distrib/syscall.c:405-447 | over every run the forest holds throughout if and only if every event is good |
| ProcessContext.FirstContext | student-distrib/syscall.c:465-473 | the first successful execute establishes the context, whatever was mapped before |
| ProcessContext.ShowContext | student-distrib/scheduler.c:51-53 | mapping the display or a saved screen, aligned or not, leaves the user page alone |
| ProcessContext.StepContext | student-distrib/syscall.c:280-288 | after every execute, halt, tick and switch, failed ones included, the user page is the current process's frame and esp0 the top of its kernel stack |
| ProcessContext.SturdyExact | student-distrib/syscall.c:269-288 | one event of any kind keeps a current process in every active terminal if and only if it does not fail to restart a terminal's last shell, and starts no program for a terminal shown without one |
| ProcessContext.SturdyRunExact | student-distrib/syscall.c:405-447 | over every run, failed executes included, that holds throughout if and only if every event meets the guard, and then no event is impossible |
| ProcessContext.FirstSturdy | student-distrib/kernel.c:196-197 | the first shell starts such a run, with its context in place |
| ProcessContext.ContextAlways | student-distrib/scheduler.c:44-55 | in every state of every possible run whatever, user page and esp0 are the current process's |
| ProcessContext.RunAgrees | student-distrib/syscall.c:445-473 | context agreement in every state of every run that meets the guard, through failed lookups and bad executables |
| ProcessContext.RunContext | student-distrib/scheduler.c:44-55 | over every good run the current process also heads the executing terminal's chain |
| ProcessContext.SlotsApart | student-distrib/syscall.c:465-473 | distinct slots have distinct aligned frames and disjoint 8 KB kernel regions, and esp0 is the last dword of its own |
| ProcessContext.FrameIs | student-distrib/syscall.c:466-473 | slot p has the p-th 4 MB above 8 MB, and the p-th 8 KB of stack below it |
| ProcessContext.TickShows | student-distrib/scheduler.c:37-53 | after a tick the user's video page shows the display exactly if the executing terminal is shown, its saved screen otherwise |
| ProcessContext.SwitchShows | student-distrib/terminal.c:152-156 | after a switch to an active terminal the page shows the display exactly if that terminal executes, its saved screen otherwise |
| Kernel.Kernel.GetProcess | student-distrib/syscall.c:560-569 | finds and marks the lowest free slot, or changes nothing |
| Kernel.Kernel.ClearProcess | student-distrib/syscall.c:602-607 | frees every slot |
| Kernel.Kernel.LinkParent | student-distrib/syscall.c:437-443 | the new process's parent is the current one, or none in a terminal just activated |
| Kernel.Kernel.EnterProcess | student-distrib/syscall.c:446-473 | current process, its terminal, user page and esp0 change together |
| Kernel.Kernel.DoExecute | student-distrib/syscall.c:405-473 | execute refines the table's and the address space's step, on all four outcomes |
| Kernel.Kernel.DoHalt | student-distrib/syscall.c:269-288 | halt, and halt_from_exc at 325-342, refine the same step, with the new shell running or failing |
| Kernel.Kernel.SwitchTask | student-distrib/scheduler.c:22-55 | the timer handler refines a tick of table and address space |
| Kernel.Kernel.DoSwitch | student-distrib/terminal.c:123-158 | a terminal switch refines its step of table and address space |
| FileSystem.Start | student-distrib/files.c:288-292 | reading starts at the offset, except that offset 4096 starts at 0 |
| FileSystem.ReadDataInto | student-distrib/files.c:267-316 | the buffer gets exactly the fetched bytes and nothing beyond them, and the count or -1 is returned |
| FileSystem.CopyBlocks | student-distrib/files.c:295-315 | the block-crossing loop copies the bytes in order and gives up at a block the image does not have |
| FileSystem.FileAt | student-distrib/files.c:289-308 | the byte looked up at any position is that byte of the file's blocks laid end to end |
| FileSystem.ConcatenatedAt | student-distrib/files.c:301-308 | whole blocks laid end to end have byte i of block b at 4096 * b + i |
| FileSystem.ReadWhole | student-distrib/files.c:267-316 | on a whole file any read is a slice, of the right length, of its blocks laid end to end, from where reading starts |
| FileSystem.ReadRefines | student-distrib/files.c:267-316 | block reads are reads of the blocks laid end to end, for every whole file, length and offset but 4096 |
| FileSystem.OffsetExact | student-distrib/files.c:289-290 | an offset is right for all files and lengths if and only if it is not 4096 |
| FileSystem.ReadFails | student-distrib/files.c:269-302 | -1 exactly when the inode or the offset is out of range or a block number on the way is bad |
| Directory.ReadDentryByName | student-distrib/files.c:213-234 | the loop, comparing a prefix and then the lengths, finds the first entry whose whole name is the argument |
| Directory.ReadDentryByIndex | student-distrib/files.c:245-255 | the entry at the index, or failure past the last |
| Directory.FoundExactly | student-distrib/files.c:213-234 | a lookup succeeds if and only if the name has 1 to 32 characters and some entry has exactly it |
| Directory.FoundIsFirst | student-distrib/files.c:223-229 | what is found is the first entry with that name, with its type and inode number |
| Directory.LookupsAgree | student-distrib/files.c:213-255 | with unique non-empty names, looking up an entry's name and its index give the same |
| Directory.ListsAll | student-distrib/files.c:138-167 | num_dentries + 1 calls from the start list every name in order, then an empty end, and start over |
| Directory.DirReader.Next | student-distrib/files.c:138-167 | one call copies the next name with its NUL, touches nothing beyond, and advances; at the end it wraps and leaves the buffer alone |
| StoredNames.StoredIsFound | student-distrib/syscall.c:181-189 | a name of up to 32 characters is found again right after it has been stored |
| StoredNames.StoreExact | student-distrib/syscall.c:181-189 | storing a name leaves another row's lookup as it was if and only if neither neighbour of the two fills its row; otherwise that lookup fails |
| Descriptors.OpenAllocates | student-distrib/syscall.c:165-197 | open takes the lowest free descriptor of 2 to 7 at position 0, touches no other descriptor and no stored name beyond its row and the byte behind, and fails exactly when the name is absent or all six are taken |
| Descriptors.CloseFrees | student-distrib/syscall.c:206-235 | close succeeds exactly on a taken descriptor, frees it alone, and never 0 or 1 |
| Descriptors.OpenedIs | student-distrib/syscall.c:168-193 | the flag, inode and position an open gives by file type; an unknown type returns 0 and changes nothing |
| Descriptors.OpenStdIs | student-distrib/syscall.c:155-164 | a name that begins with stdin or stdout returns 0 and only sets the flag of descriptor 1 or 2 |
| Descriptors.LedgerIsTaken | student-distrib/syscall.c:151-235 | over every run the taken descriptors are the successful opens minus the successful closes |
| Descriptors.Read | student-distrib/syscall.c:70-73 | through the dispatch table, reading a free or impossible descriptor from 2 on returns -1 and changes nothing |
| Descriptors.Write | student-distrib/syscall.c:126-128 | through the dispatch table, writing a free or impossible descriptor from 2 on, a file or a directory returns -1 |
| Descriptors.ReadReaches | student-distrib/syscall.c:40-58 | which device or file answers a read, for each flag |
| Descriptors.WriteReaches | student-distrib/syscall.c:40-58 | a write is answered by keyboard, terminal or clock exactly for their flags, and is -1 for the others |
| Descriptors.NoneReached | student-distrib/syscall.c:72-127 | a null buffer, a negative count or a number that is no descriptor gives -1 and changes nothing |
| Descriptors.FailedReadMoves | student-distrib/syscall.c:110-116 | a read whose name is not found returns -1 and moves the 32-bit position back by one |
| SystemCalls.DoWrite | student-distrib/syscall.c:126-128 | the call on a real machine: a terminal descriptor prints the cut text in the executing terminal, a keyboard descriptor echoes, the others print nothing |
| SystemCalls.PrintFromNewProcess | student-distrib/syscall.c:457-460 | in a process as execute sets it up, write to descriptor 1 prints and counts the text |
| SequentialReads.OpenedIsReading | student-distrib/syscall.c:184-190 | a whole regular file just opened, its name of up to 32 characters, is readable from position 0 |
| SequentialReads.OpenExact | student-distrib/syscall.c:151-198 | an open leaves another open file readable if and only if it does not damage its stored name, or overwrite descriptor 2 through a name that begins with stdout |
| SequentialReads.ReadingExact | student-distrib/syscall.c:151-235 | any call keeps an open file readable, and the same file, if and only if the guard holds |
| SequentialReads.RunReadingExact | student-distrib/syscall.c:151-235 | over every run an open file is readable in every state if and only if every call meets the guard |
| SequentialReads.DamagedReadFails | student-distrib/syscall.c:110-116 | after an open that damages a file's name every read of that file returns -1 |
| SequentialReads.LongNameDamages | student-distrib/syscall.c:181-189 | a run in which a 32-character name opened at descriptor 2 ends the reading of descriptor 3 |
| SequentialReads.OwnReadBounds | student-distrib/syscall.c:110-116 | any read of an open file, even at the faulty offset, delivers bytes of the file and stays within it |
| SequentialReads.OthersApart | student-distrib/syscall.c:110-116 | calls that keep an open file readable and do not read it leave its descriptor as it is |
| SequentialReads.OwnRead | student-distrib/syscall.c:110-116 | a read returns the file from its position on, cut to nbytes, and moves the position past it, except at 4096 in a longer file |
| SequentialReads.EndOfFile | student-distrib/files.c:277-280 | a non-empty read returns 0 exactly at the end of the file, at any offset, and then for ever |
| SequentialReads.StepReads | student-distrib/syscall.c:110-116 | what one call delivers of an open file is the file between the two positions |
| SequentialReads.ReadsConcatenate | student-distrib/files.c:75-81 | over every run of calls that keeps the file readable the bytes read are exactly the file from its old to its new position |
| SequentialReads.ByteReads | student-distrib/files.c:288-292 | any number of one-byte reads delivers the file with byte 4096 replaced by byte 0 |
| SequentialReads.SeenExact | student-distrib/files.c:288-292 | that is the file itself if and only if it has at most 4096 bytes or the two bytes are equal |
| DescriptorDriver.StringInRow | student-distrib/syscall.c:113 | the string found in a stored row, read on into the next rows and the rest of the PCB, looks up what the row and the byte behind it say |
| DescriptorDriver.Process.constructor | student-distrib/syscall.c:449-460 | a new process has its keyboard and terminal and no taken descriptor; stored names are left as they were |
| DescriptorDriver.Process.DoOpen | student-distrib/syscall.c:151-198 | the call refines `Open` for every name, including those that begin with stdin or stdout and those of 32 characters |
| DescriptorDriver.Process.StoreName | student-distrib/syscall.c:189 | the copying loop writes the name and its NUL, across the end of the row if need be |
| DescriptorDriver.Process.Allocate | student-distrib/syscall.c:165-197 | the search for a free descriptor refines the allocation |
| DescriptorDriver.Process.IsStd | student-distrib/syscall.c:155-160 | the comparison asks whether the name begins with the literal |
| DescriptorDriver.Process.DoClose | student-distrib/syscall.c:206-235 | the call refines `Close` |
| DescriptorDriver.Process.DoRead | student-distrib/syscall.c:70-73 | the call refines `Read`, with the bytes of a file in the program's buffer and nothing beyond them |
| DescriptorDriver.Process.ReadFile | student-distrib/syscall.c:110-116 | reads, then advances the 32-bit position by the result, even by -1 |
| DescriptorDriver.Process.ReadNamed | student-distrib/files.c:75-81 | looks the stored string up again and fills the program's buffer with what read_data gives |
| TextLines.RowsJoin | fish/fish.c:98-147 | the rows of a text, joined by newlines, are the text again |
| TextLines.RowsPlain | fish/fish.c:98-147 | no row has a newline in it |
| TextLines.LinesAreRows | syscalls/ece391grep.c:29-57 | lines are rows, except that a newline at the end does not start another one |
| Grep.PatternExact | syscalls/ece391grep.c:43-44 | the code prints the lines that contain the pattern, for every file, if and only if the pattern is not empty and either its first byte is below 128 or it holds a newline or over 1023 characters, so that no line can contain it |
| Grep.ContainsIs | syscalls/ece391grep.c:42-44 | a line contains the pattern exactly when it is some text, the pattern, and some text |
| Grep.PrintedAs | syscalls/ece391grep.c:45-48 | a line is printed as the file's name, a colon, the line and a newline |
| Grep.PatternGood | syscalls/ece391grep.c:42-51 | for such a pattern the output is that of the lines that contain it |
| Grep.PatternBad | syscalls/ece391grep.c:43 | for any other pattern there is a file that contains it and nothing is printed |
| Grep.LeftStep | syscalls/ece391grep.c:42-52 | the expected output from a line on is that of the line followed by that of the rest |
| Grep.TestAt | syscalls/ece391grep.c:43-44 | the test holds exactly where the pattern occurs in the line |
| Grep.SearchLine | syscalls/ece391grep.c:42-51 | a line is printed once if the pattern occurs in it, otherwise not at all |
| Grep.CopyDown | syscalls/ece391support.c:14-17 | the overlapping copy moves a string to the front of the buffer unharmed |
| Grep.FindEnd | syscalls/ece391grep.c:30-32 | the scan finds the line's true end in the file, or the end of what is in the buffer |
| Grep.Carry | syscalls/ece391grep.c:33-39 | an unfinished line is carried to the front whole |
| Grep.FillBuffer | syscalls/ece391grep.c:22-27 | the buffer holds the file's next bytes behind the carried line |
| Grep.ScanLine | syscalls/ece391grep.c:29-56 | each turn carries or reports exactly one line and keeps the account of what is printed |
| Grep.ScanBuffer | syscalls/ece391grep.c:28-57 | one filling is searched completely; at most an unfinished line of under 1024 bytes remains |
| Grep.GrepFile | syscalls/ece391grep.c:20-60 | the loop terminates inside its buffer and prints exactly the matching lines in order, or the first of them when a read fails; one read more than the file has bytes is enough |
| Grep.DoOneFile | syscalls/ece391grep.c:9-66 | that, with the results and messages of a failing open, read or close |
| Blink.ClosedForm | fish/blink.S:64-90 | k ticks after its add a blinker is at phase k mod (on + off), and on exactly in the first part |
| Blink.StayInStep | fish/blink.S:64-90 | two blinkers with the same timing keep the same status and countdown for ever |
| BlinkList.FirstFree | fish/fish.c:160-170 | the lowest slot with location zero, or none |
| BlinkList.Match | fish/blink.S:351-379 | the newest element at the location, or none |
| BlinkList.TickedOnce | fish/blink.S:58-90 | walking the list ticks each of its elements once and no other slot |
| BlinkList.FullExactly | fish/fish.c:160-170 | allocation fails exactly when the list has as many elements as the array has slots |
| BlinkList.StepExact | fish/blink.S:105-184 | every operation keeps the list acyclic and equal to the slots in use, if and only if it is not a successful add at location 0 |
| BlinkList.AddRefines | fish/blink.S:105-184 | add is cons, and fails only for a bad location or with all slots live |
| BlinkList.RemoveRefines | fish/blink.S:187-237 | remove drops the newest match and keeps the order of the others |
| BlinkList.SyncRefines | fish/blink.S:240-300 | sync copies lengths, countdown and status between the newest matches |
| BlinkList.TickRefines | fish/blink.S:58-90 | the tick is a map over the sequence |
| BlinkList.RunRefines | fish/blink.S:101-379 | over every run the array stays a well-formed list and equals the plain sequence |
| BlinkList.OnlyTicksMatter | fish/blink.S:58-90 | a blinker that is neither removed nor synced onto depends on the number of ticks alone |
| BlinkList.AddStores | fish/blink.S:131-170 | an add puts the blinker in front, lit, in a slot that was free, with all its fields, and shows its on character |
| BlinkList.SyncKeeps | fish/blink.S:267-275 | a sync changes the timing of one blinker only, and no location or character |
| BlinkList.BlinksInTime | fish/blink.S:135-138 | from its add on, over every such run, it is on exactly when the tick count mod the period is below the on-length |
| BlinkList.SyncedStay | fish/blink.S:267-275 | after a sync both blinkers agree until one is removed or synced again |
| BlinkList.TickKeepsShown | fish/blink.S:71-86 | after a tick each blinker's cell shows the character its status calls for |
| BlinkList.AddKeepsShown | fish/blink.S:164-170 | so it does after an add at a new location |
| BlinkList.RemoveKeepsShown | fish/blink.S:214-222 | and after a remove |
| BlinkList.SyncShownExactly | fish/blink.S:277-286 | after a sync if and only if the source is off or the target's two characters are the same |
| BlinkDriver.LinksUnique | fish/blink.S:359-367 | the links determine the list |
| BlinkDriver.LinksPush | fish/blink.S:159-162 | linking a new head puts it in front |
| BlinkDriver.LinksDrop | fish/blink.S:206-217 | redirecting one link takes exactly one element out |
| BlinkDriver.BlinkArray.FindHelper | fish/blink.S:351-379 | the walk returns the newest match or null |
| BlinkDriver.BlinkArray.Malloc | fish/fish.c:160-170 | the scan returns the lowest free slot or null |
| BlinkDriver.BlinkArray.DoAdd | fish/blink.S:105-184 | refines the add, stays linked in any case, and stays well-formed exactly when sound |
| BlinkDriver.BlinkArray.DoSync | fish/blink.S:240-300 | refines the sync; succeeds exactly when both locations are in the list |
| BlinkDriver.BlinkArray.DoFind | fish/blink.S:302-349 | copies out the newest match |
| BlinkDriver.BlinkArray.FindPrevious | fish/blink.S:206-214 | the search for the link to an element of the list ends at its predecessor or the head |
| BlinkDriver.BlinkArray.Unlink | fish/blink.S:214-222 | the element leaves the list and its slot is zeroed |
| BlinkDriver.BlinkArray.DoRemove | fish/blink.S:187-237 | refines the remove |
| BlinkDriver.BlinkArray.TickNode | fish/blink.S:64-86 | 16-bit decrement, signed test, reload, flip and poke of one element |
| BlinkDriver.BlinkArray.TickAll | fish/blink.S:58-90 | the walk ticks and shows the elements in list order and changes no link |
| BlinkDriver.BlinkArray.Tasklet | fish/blink.S:49-99 | refines the tick |
| Frames.ReadNext | fish/fish.c:102-116 | the guarded read delivers the row's next character, or a newline from its end on |
| Frames.ReadRow | fish/fish.c:99-130 | one row of both files: the adds of that row, left to right, and both files at the row's end |
| Frames.DoRow | fish/fish.c:98-147 | after a row each file is at its next row or at its end |
| Frames.AddFrames | fish/fish.c:98-147 | the loops terminate for every two files and issue exactly the adds of their padded frames |
| Frames.OneAddPerCell | fish/fish.c:122-127 | one add per cell where either space-padded frame is not blank and no other, its on and off character those of the first and second frame there, its location row * 80 + col + 40 as a 16-bit word, in reading order |
| Memory.MemSet | student-distrib/lib.c:437-473 | for every alignment and length, exactly n bytes are set |
| Memory.MemCpy | student-distrib/lib.c:529-568 | never writes outside n bytes, and copies them when the ranges are disjoint or dest is not above src |
| Memory.MemMove | student-distrib/lib.c:578-598 | dest gets the old source bytes for every overlap, as section 7.21.2.2 of ISO C99 asks; the direction flag stays set exactly after a backward move |
| Numbers.RoundTrip | student-distrib/lib.c:365-393 | the numeral parses back to the value, in digits of the radix, without a leading zero |
| Numbers.DigitIs | student-distrib/lib.c:368 | the digits are those of the lookup string |
| Numbers.Itoa | student-distrib/lib.c:365-393 | digit loop and in-place reversal write that numeral |
| Numbers.StrRev | student-distrib/lib.c:400-414 | the string is reversed in place |
| Numbers.SwapEnds | student-distrib/lib.c:406-412 | the swapping loop reverses, for odd and even lengths |
| Numbers.WriteDigits | student-distrib/lib.c:383-390 | the digit loop leaves the digits in reverse and a NUL |
| Numbers.UserItoa | syscalls/ece391support.c:49-81 | the user library writes the same numeral |
| Numbers.UserStrRev | syscalls/ece391support.c:84-103 | its reversal, with the early return, gives the same |
| Numbers.EightDigits | student-distrib/lib.c:109-119 | `%#x` always gives eight hexadecimal digits that denote the argument |
| Numbers.PrintPaddedHex | student-distrib/lib.c:109-119 | conversion at offset 8, zero filling and the shifted start print that |

## Left out

* Boot, the descriptor tables, the exception handlers, paging_init's first tables: configuration. `Kernel.Kernel.constructor` starts from zeroed tables, and context agreement holds whatever was mapped before.
* Stack switching, `iret`, saved registers, `cli`/`sti` and the handler's lock: each handler or system call is one atomic step. A `keyboard_read` is one step taken once Enter has been pressed; its waiting loop is not modelled.
* Port input and output, the VGA cursor, the PIT and the RTC; what a device read or write returns is a parameter.
* User programs writing the screen through `vidmap`, which bypasses the console functions. `vidmap`'s check of its pointer always passes for the kernel's own callers.
* What Ctrl+1 to Ctrl+5 print: an arbitrary list of characters, each by `putc` or by `terminal_write`, stands for it.
* `Terminals` and `Processes` are two projections of one kernel state; the flags `active`, `shown` and `exec` occur in both, and the outcome of `execute` is a parameter of both.
* `current_pcb`, halt's loop that closes descriptors (it closes the parent's), the argument string, and the loading of the program image.
* printf's format scan and its other conversions, `strncpy`, `memset_word`, `memset_dword`: straight loops with nothing further to say.
* The user programs cat, ls, hello, counter, pingpong, shell, sigtest, syserr and testprint; the Linux emulation layer.
* The damage a 32-character name at descriptor 7 does to the saved ESP0, which halt uses: stack switching is left out.
* Strings passed by callers are NUL-terminated; lengths and addresses are unbounded except where the code's wrap-around shows (countdowns, locations, the file position).
- Terminals.TickTo: the entry past the third terminal reads as inactive; `Scheduler.SelectNext` says what happens otherwise.
- Driver.Machine.SwitchTask: the same.
- Kernel.Kernel.SwitchTask: the same.
- Kernel.Kernel.DoHalt: leaves out the closing of the parent's descriptors and `current_pcb`.
- Driver.Machine.StartShell: how execute turns out is a parameter, and its message any text.
- Driver.Machine.DebugKey: what is printed is any list of characters.
- Driver.Machine.KeyboardRead: requires a newline or a NUL somewhere in the keyboard buffer, without which the copy would run past it, and a program buffer with room for the line and its NUL, which the code writes even behind a line of nbytes characters.
- Driver.CopyLineOut: the same room for the NUL.
- Descriptors.Read: what a keyboard, terminal, clock or directory read returns is a parameter.
- Descriptors.Write: what a device's write returns is a parameter.
- DescriptorDriver.Process.DoRead: needs a NUL somewhere in the PCB behind the stored names, and a buffer with room for what a file read delivers.
- Grep.FillBuffer: reads are short only at the end of the file, and deliver it as a flat stream: a read that starts at offset 4096 of a file would not, see `FileSystem.OffsetExact`.
- Grep.GrepFile: lines have at most 1023 characters, pattern and file hold no NUL, and the last byte of the uninitialised buffer is not a newline.
- Grep.DoOneFile: the same.
- Frames.ReadNext: a read that fails is not modelled; it would leave the character as it was.
- Frames.AddFrames: takes both files as open flat streams; on this kernel a file of more than 4096 bytes arrives as `SequentialReads.ByteReads` says. A failing open, which ends the program, is not modelled.
- Memory.MemCpy: says nothing about the bytes copied when dest lies inside the source range above src.
- Directory.DirReader.Next: the program's buffer is assumed large enough for a name.
