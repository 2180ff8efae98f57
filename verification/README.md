# A model of a teaching kernel and its programs

The project models the stateful parts of a small x86 teaching kernel, of the grep program that runs
on it and of a blinking-character module, and proves that each of them is what it is meant to be: a
much simpler object, kept up to date in place by array-and-flag code.

Each component has a class or a method in the form of the C or assembly code, a specification
function that says what one step does, and lemmas that say what whole runs of such steps keep.

- **Processes and terminals** (`Layout`, `FileTable`, `Processes`, `Scheduling`, `Calls`, `Kernel`).
  The process table, the active process of each terminal, the control blocks, the user page-directory
  entry and `tss.esp0`. Abstractly: three disjoint stacks of pids and the running terminal. Events are
  the timer tick, execute, halt, and any change a process makes to its own descriptors. `Kernel.Machine`
  holds the arrays; `Processes` states each step and proves it refines the stacks; `Scheduling` and
  `Calls` are about runs of any length after boot.
- **Read-only file system and descriptors** (`FileSystem`, `Directory`, `Descriptors`, `Sessions`,
  `Loader`). An image of entries, inodes and 4 KB blocks; block-mapped reads; lookup by name; a
  process's file array; and why execute cannot leave a wrong user mapping.
- **grep** (`Grep`). The 1024-byte buffer against the one-line specification `Report(Lines(file))`.
- **Console** (`Text`, `Console`). Three 80x25 pages, as windows onto unbounded wrapped texts.
- **Library routines** (`Arithmetic`, `Bytes`, `MemoryOps`, `Numbers`). String, memory and number routines.
- **Blink list** (`Waveform`, `Blink`). A linked list inside a slot allocator and its tick.
- **Keyboard line** (`LineDiscipline`, `Echo`). One terminal's edit buffer and `terminal_read`, and what
  the screen shows of a line while it is edited.

Integers are unbounded in Dafny; where the code's width matters, `Bytes.U32`, `Bytes.I32` and the
16-bit arithmetic of `Waveform` wrap explicitly.

## What the proofs found

Where a promise of the code or its comments does not hold for all inputs, the code is modelled as it
is and a lemma gives the exact condition.

- The waiting bound of five ticks holds and is tight (`Scheduling.FourTicksDoNotSuffice`).
- halt stops closing at the first closed descriptor, so it can leave one open
  (`FileTable.HaltClosesAllIff`, `Sessions.HaltCanMissADescriptor`).
- The flags of a base shell's descriptors follow the terminal number, so in two of the three base shells
  every open fails until a close has cleared an entry (`Sessions.BaseShellOpenFailsIff`).
- A read with a negative count can move a file position back without delivering anything
  (`Sessions.ReadInStepIff`, `Sessions.RunInStepIff`, `Sessions.ANegativeCountGoesBack`), and the count read_data returns is wrong when offset + length wraps
  (`FileSystem.CountIsStoredIff`).
- close keeps the jump table, so a closed entry can still be read; exactly when that fails depends on the
  table (`Sessions.ReadAfterCloseFailsIff`, `Sessions.ReadAfterCloseStillDelivers`).
- Blanking a short buffer without a NUL changes bytes behind it (`FileSystem.BlankingStaysInsideIff`).
- memcpy of overlapping memory, dest above src, can lose bytes (`MemoryOps.Memcpy`,
  `MemoryOps.OverlapFromAboveLosesBytes`).
- After reads of fewer than 128 bytes, or a key between Enter and the end of a read, the keyboard driver
  can store outside its buffer: a key or a read behind it, a backspace before it
  (`LineDiscipline.RunIsEdited` and the three runs beside it).
- A load that failed after the header check would leave the user page at the wrong frame
  (`Processes.ExecRefines`), but on a well-formed image none does: also when an entry points past the
  inodes, blanking the header buffer makes the check fail first (`Loader.HeaderMeansLoads`).
- A file of 1 to 3 bytes can pass the header check with the help of what lay in the header buffer
  (`Loader.LoadsIffElf`, `Loader.ShortFileCanLoad`).
- A blink location of 0 is accepted but marks its slot free, which breaks the list; the next add turns it
  into a loop, on which the tick never ends (`Blink.List.Add`, `Blink.AddAfterZeroMakesALoop`).
- Backspace in the top-left corner writes outside the terminal's page (`Console.BackspaceStaysOnPageIff`).
- A key without a character, such as an arrow or a function key, is stored in the line as a NUL and draws
  nothing, but a backspace that removes it steps back on the screen: over the prompt, over a character that
  the line keeps, or into the top-left corner (`Echo.PageShowsTheLineIff`, `Echo.BackspaceEatsThePrompt`,
  `Echo.BackspaceLeavesThePage`, `Echo.BackspaceMeetsTheCornerIff`).
- grep prints nothing for an empty pattern (`Grep.SearchLine`). When its buffer is full it also looks at
  the byte behind it; a newline that happens to be there cuts a line in two
  (`Grep.OutputIsRightIff`, `Grep.StrayNewlineCutsALine`).
- The header that execute looks for is the four bytes 7f 45 4c 46; the first is a raw DEL character
  in the source text.

## Model

| member | source | states |
|---|---|---|
| `Processes.BootIsStacked` | student-distrib/syscall_handler.c:156-234 | after boot the tables are three one-process stacks with bottoms 0, 1, 2, terminal 0 runs, and the user page entry names pid 0 |
| `Processes.NextFree` | student-distrib/syscall_handler.c:121-126 | the result is the lowest unused slot, or 6 exactly when all are used |
| `Processes.Scan` | student-distrib/syscall_handler.c:618-643 | the scan stops at the cyclically first live leaf after the current pid; no live leaf is passed; the current pid itself only when there is no other |
| `Processes.AheadIsRemainder` | student-distrib/syscall_handler.c:618-624 | the ring of pids is counting modulo 6 |
| `Processes.AbsStep` | student-distrib/syscall_handler.c:300-340 | tick, execute, halt and descriptor calls keep three disjoint, repetition-free stacks whose bottoms are 0, 1, 2 |
| `Processes.StacksMove` | student-distrib/syscall_handler.c:58-643 | how the stacks move: a tick goes to another terminal, none of whose rivals has its top nearer around the ring; halt drops the last pid of a stack of two or more; execute appends the lowest unused pid, or nothing when the load fails or all are used |
| `Processes.ExecRefines` | student-distrib/syscall_handler.c:253-345 | execute on the stored tables pushes the lowest unused pid on the running stack, or changes nothing but the page entry; the page entry stays right if and only if it is not the case that a slot was free and the program failed to load after its header passed |
| `Processes.ExecEffect` | student-distrib/syscall_handler.c:253-345 | what execute leaves, field by field, for each of its three outcomes: the child in the lowest unused slot with the running process as its parent and a fresh file array, the page entry alone, or no change |
| `Processes.FullExecEffect` | student-distrib/syscall_handler.c:271-275 | with all six slots used execute changes nothing |
| `Processes.HaltRefines` | student-distrib/syscall_handler.c:58-96 | halt pops the running stack, does nothing to it at the bottom, and keeps the page entry right |
| `Processes.HaltEffect` | student-distrib/syscall_handler.c:58-96 | halt above the bottom frees the slot, hands terminal, page entry and esp0 to the parent, makes it a leaf again, and closes exactly the descriptors with no closed one below them; at the bottom the state stays the same |
| `Processes.TickRefines` | student-distrib/syscall_handler.c:611-643 | after boot a tick always changes terminal, to the one whose top comes first around the ring of pids, and leaves page entry, esp0 and active process naming one pid |
| `Processes.FilesRefines` | student-distrib/syscall_handler.c:412-474 | no change of a process's own descriptors disturbs the stacks or the page entry |
| `Processes.StepRefines` | student-distrib/syscall_handler.c:58-643 | every event is possible in every represented state and its effect is the event on the three stacks |
| `Processes.RunnableIffTop` | student-distrib/syscall_handler.c:300-340 | a pid is a live leaf if and only if it is the top of one of the three stacks |
| `Processes.StacksAreDetermined` | student-distrib/syscall_handler.c:318-340 | the stored parent links and tops determine the three stacks: no state represents two different triples |
| `Processes.CallerIsRunning` | student-distrib/syscall_handler.c:318-340 | however deep the call is on its 8 KB stack, masking esp finds the control block of the running process |
| `Processes.ScanAmongThree` | student-distrib/syscall_handler.c:618-643 | among three runnable pids the scan takes the nearer of the other two |
| `Scheduling.Run` | student-distrib/syscall_handler.c:58-643 | every run of events from boot can happen, and its state is always the three stacks of the same run |
| `Scheduling.MachineAgrees` | student-distrib/syscall_handler.c:88-96 | in every run without a failed load, user page entry, esp0 and active process name one pid |
| `Scheduling.RankPaysForTicks` | student-distrib/syscall_handler.c:611-643 | while a terminal waits, each tick lowers the other waiting terminal's ring distance and no call changes it, over any run |
| `Scheduling.BoundedWaiting` | student-distrib/syscall_handler.c:611-643 | whatever executes, halts and descriptor calls happen between ticks, in any run a terminal is selected by the fifth tick |
| `Scheduling.FourTicksDoNotSuffice` | student-distrib/syscall_handler.c:611-643 | the bound is tight: a run in which four ticks pass a waiting terminal over |
| `Calls.RoundRobinOrder` | student-distrib/syscall_handler.c:618-643 | three ticks on fixed stacks visit each terminal once and the next returns to the first |
| `Calls.ThreeTicksReturn` | student-distrib/syscall_handler.c:611-643 | three consecutive ticks run terminals 0, 1 and 2 once each and restore the whole machine state |
| `Calls.HaltUndoesExecute` | student-distrib/syscall_handler.c:253-345 | execute followed by the child's halt restores every table and every control block but the child's; a reused pid starts with a fresh file array and the right parent |
| `Calls.BottomStays` | student-distrib/syscall_handler.c:58-345 | as long as a stack does not drop below h, its bottom h processes stay, in any run |
| `Calls.BalancedCallsRestoreTheStack` | student-distrib/syscall_handler.c:58-345 | a balanced run of executes and halts restores a terminal's stack, with ticks and other terminals' calls in between |
| `Calls.WaitingTerminalIsUntouched` | student-distrib/syscall_handler.c:58-643 | over any run in which a terminal waits, its stack, active process, control blocks and descriptors do not change |
| `Kernel.Machine.constructor` | student-distrib/syscall_handler.c:27-34 | the tables before boot: no live process, no active process on any terminal |
| `Kernel.Machine.ChangeProcess` | student-distrib/paging.c:67-71 | through the new page entry every user address reaches the same offset of the pid's own 4 MB frame, at (pid + 2) * 4 MB |
| `Kernel.Machine.GetNextPid` | student-distrib/syscall_handler.c:121-126 | the loop finds the lowest unused slot, 6 when there is none |
| `Kernel.Machine.ExecuteShells` | student-distrib/syscall_handler.c:138-241 | success leaves the boot state; a missing shell changes nothing; a shell that does not load leaves exactly what the first round had written |
| `Kernel.Machine.StartShell` | student-distrib/syscall_handler.c:157-191 | one round of the boot loop, with its early return |
| `Kernel.Machine.ShellTable` | student-distrib/syscall_handler.c:172-178 | the base shell's file array, whose flags follow the terminal number |
| `Kernel.Machine.ProcessTable` | student-distrib/syscall_handler.c:314-320 | the file array of a process started by execute |
| `Kernel.Machine.Execute` | student-distrib/syscall_handler.c:253-345 | in place, execute is the execute step and keeps the three stacks; it fails if and only if the command does not load or all slots are used |
| `Kernel.Machine.SetUpProcess` | student-distrib/syscall_handler.c:300-342 | the table updates of a successful execute, in the order the code makes them |
| `Kernel.Machine.CloseLeadingFiles` | student-distrib/syscall_handler.c:82-87 | halt's loop closes the leading run of open descriptors and no other |
| `Kernel.Machine.Halt` | student-distrib/syscall_handler.c:58-96 | in place, halt is the halt step and keeps the three stacks; above the bottom, a descriptor of the halted process is open afterwards if and only if it was open above a closed one, and all others are emptied |
| `Kernel.Machine.FindNextLeaf` | student-distrib/syscall_handler.c:618-634 | the tick's loop terminates at the next live leaf |
| `Kernel.Machine.SwitchTo` | student-distrib/syscall_handler.c:639-643 | page entry, esp0 and running terminal change together to those of the next process |
| `Kernel.Machine.PitInt` | student-distrib/syscall_handler.c:611-653 | in place, a tick is the tick step: nothing before boot, a change of terminal after it |
| `Layout.MaskClearsLowBits` | student-distrib/syscall_handler.h:12 | the bitwise mask is rounding down to 8 KB, for all 32-bit addresses |
| `Layout.PageEntryIsBitwiseOr` | student-distrib/paging.c:67-71 | the or of address and flag bits is their sum |
| `Layout.LayoutInNumbers` | student-distrib/syscall_handler.h:12-25 | stack tops, control blocks, the mask and the page entry, with its present bit, in plain numbers |
| `Layout.MaskFindsPcb` | student-distrib/syscall_handler.h:22-25 | a stack pointer masks to a pid's control block if and only if it lies in that pid's 8 KB |
| `Layout.SystemCallFindsItsPcb` | student-distrib/syscall_handler.c:318-326 | every stack depth below esp0 finds the same pid |
| `Layout.FramesAreDisjoint` | student-distrib/paging.h:41 | distinct pids' user frames never meet and lie above the kernel |
| `FileTable.CloseFromEffect` | student-distrib/syscall_handler.c:82-87 | halt's loop closes an entry if and only if all entries up to it are open (that a halt runs it is in Processes.HaltEffect and Kernel.Machine.Halt) |
| `FileTable.HaltClosesAllIff` | student-distrib/syscall_handler.c:84 | the loop closes every descriptor if and only if no open one lies above a closed one |
| `FileTable.StaysOpenIff` | student-distrib/syscall_handler.c:82-87 | the loop leaves a descriptor open if and only if it is open above a closed one |
| `FileTable.FreshEntries` | student-distrib/syscall_handler.c:314-320 | entry by entry, the file array of a new process and of each base shell: stdin, stdout, then entries with no functions, and their flags |
| `Descriptors.FirstFree` | student-distrib/syscall_handler.c:431-433 | the lowest closed entry, or 8 when all are open |
| `Descriptors.Process.constructor` | student-distrib/syscall_handler.c:314-320 | a fresh file array |
| `Descriptors.Process.Open` | student-distrib/syscall_handler.c:412-445 | in place, open is the open step; what that is for each type of entry is in Sessions.OpenedEntry |
| `Descriptors.Process.Read` | student-distrib/syscall_handler.c:356-378 | in place, read is the read step; it puts the bytes of the file or of the entry's name into the buffer, changes nothing else but the blanked bytes, and for an open file or directory within its end returns their number |
| `Descriptors.Process.ReadEntry` | student-distrib/syscall_handler.c:370 | the jump through an entry's table: the value of each read function and what it puts into the caller's buffer |
| `Descriptors.PlainReturnsItsCount` | student-distrib/syscall_handler.c:356-378 | for an open file or directory within its end the value is the number of bytes passed |
| `Descriptors.Process.Close` | student-distrib/syscall_handler.c:456-474 | in place, close is the close step, with the return value of each jump table |
| `Sessions.NamesAreKept` | student-distrib/syscall_handler.c:412-474 | in every run of calls an open entry keeps inode, type and jump table of the name it was opened with; which table a type has is in Sessions.OpenedEntry |
| `Sessions.AllInStep` | student-distrib/syscall_handler.c:356-474 | in every run of open, read (count not negative) and close, an open regular file has delivered exactly its bytes up to the position |
| `Sessions.DeliversTheNamedFile` | student-distrib/syscall_handler.c:356-474 | over such runs, the bytes delivered on a descriptor since its open are the beginning of the file of that name, their number is the position, and it never passes the file's length |
| `Sessions.ReadKeepsInStep` | student-distrib/syscall_handler.c:370-373 | one read with a count that is not negative extends the delivered prefix |
| `Sessions.ReadInStepIff` | student-distrib/syscall_handler.c:370-373 | a read of any 32-bit count keeps it so if and only if the count is not negative or its sum with the position is negative |
| `Sessions.RunInStepIff` | student-distrib/syscall_handler.c:370-373 | over every run with any 32-bit counts, the bytes delivered exceed the position by what reads have moved it back, and an open regular file is in step if and only if that is nothing |
| `Sessions.ANegativeCountGoesBack` | student-distrib/syscall_handler.c:373 | a run of an open, a read of 2 and a read of -1 after which a descriptor is out of step |
| `Sessions.ReadReturnsItsCount` | student-distrib/syscall_handler.c:356-378 | read on an open regular file returns the number of bytes it delivers, the smaller of the count and what is left; a positive read returns 0 if and only if the whole file has been delivered |
| `Sessions.OtherReads` | student-distrib/syscall_handler.c:356-378 | read fails outside the table, changes at most the position of its own entry, and returns a terminal's own result, -1 from stdout and unused tables, 0 from the RTC, -1 behind a full directory and for a bad inode |
| `Sessions.OpenTakesLowestFree` | student-distrib/syscall_handler.c:431-444 | open takes the lowest free slot, fails if and only if the name is unknown or all slots are open, changes no other slot, and close gives the slot back |
| `Sessions.OpenedEntry` | student-distrib/syscall_handler.c:436-440 | what open stores: position 0, the entry's inode and type, and the RTC's table for type 0, the directory's for type 1 and the file's for type 2 |
| `Sessions.CloseEmptiesTheEntry` | student-distrib/syscall_handler.c:456-474 | close empties an open entry but for its jump table and returns 0 for files, directories and the RTC, -1 for a terminal entry of inode 0; it fails without a change outside the table and on a closed entry |
| `Sessions.FreeIsConserved` | student-distrib/syscall_handler.c:412-474 | over every run from every file array, the number of free entries is that at the start plus the entries closes have cleared less those opens have taken |
| `Sessions.NewTablesAreUnused` | student-distrib/syscall_handler.c:314-320 | the tables of new processes and of base shells hold no opened entry, as the run results require of their start |
| `Sessions.OpenFailsIff` | student-distrib/syscall_handler.c:412-445 | after any run of a process started by execute, open fails if and only if the name is unknown or six more entries have been opened than closed |
| `Sessions.BaseShellOpenFailsIff` | student-distrib/syscall_handler.c:177 | after any run of a base shell of terminal 0 or 1, open fails if and only if the name is unknown or every entry that a close has cleared has been taken again; before the first close it always fails |
| `Sessions.HaltCanMissADescriptor` | student-distrib/syscall_handler.c:84 | two opens and a close of the first, after which halt leaves the second open |
| `Sessions.ReadAfterCloseFailsIff` | student-distrib/syscall_handler.c:356-378 | for every jump table and count, exactly when a read of a just closed entry fails |
| `Sessions.ReadAfterCloseStillDelivers` | student-distrib/syscall_handler.c:468 | a read of a just closed regular-file entry delivers the beginning of inode 0 |
| `Sessions.ListingIsComplete` | student-distrib/file_system.c:268-285 | from a directory entry at position 0, 32-byte reads pass each name once and in order up to the first empty entry, then nothing (or fail behind a full directory) without moving the position |
| `Sessions.DirectoryRunLists` | student-distrib/syscall_handler.c:356-445 | over a run: after the open of a name of type 1 and k reads of 32 bytes, the next read returns the length of entry k's name and passes that name, and from the first empty entry on it returns 0, or -1 behind a full directory |
| `FileSystem.ContentsAt` | student-distrib/file_system.c:89-118 | byte k of a file is byte k mod 4096 of its block k / 4096, out of a table of 1023 |
| `FileSystem.CountIsStoredIff` | student-distrib/file_system.c:108-117 | the count returned is the number of bytes stored if and only if offset + length does not wrap at 2^32 |
| `FileSystem.CopyBlocks` | student-distrib/file_system.c:101-116 | the cached block pointer is right at every byte, from any start, and exactly the requested stretch of the file is stored |
| `FileSystem.ReadData` | student-distrib/file_system.c:89-118 | the buffer receives contents[offset..min(offset+length, size)], nothing else changes, and the error cases return -1 |
| `FileSystem.ClearBuffer` | student-distrib/file_system.c:214-219 | the leading non-NUL bytes of the caller's buffer, at most 32, are blanked |
| `FileSystem.ClearedAt` | student-distrib/file_system.c:214-219 | byte by byte: NUL afterwards if it is among the first 32 and no NUL precedes it, and unchanged otherwise |
| `FileSystem.BlankingStaysInsideIff` | student-distrib/file_system.c:216-219 | blanking changes no byte behind the buffer, whatever lies there, if and only if the buffer has 32 bytes or holds a NUL |
| `FileSystem.FileRead` | student-distrib/file_system.c:212-224 | blanking and then the read |
| `FileSystem.LoadProgram` | student-distrib/file_system.c:293-297 | loading an inode of the image never fails and leaves the whole file in memory |
| `FileSystem.WholeFile` | student-distrib/file_system.c:293-297 | a read of a file's whole length delivers the file and returns that length |
| `Directory.CompareIsExact` | student-distrib/file_system.c:43-57 | with the growing compare length, the cut strings are equal if and only if the entry's name is the request's first 32 bytes |
| `Directory.EntryStrlen` | student-distrib/file_system.c:51 | what strlen sees at an unterminated name is the name and at most the type byte behind it |
| `Directory.ReadDentryByName` | student-distrib/file_system.c:31-60 | the loop finds the entry that the name denotes |
| `Directory.IsNamed` | student-distrib/file_system.c:49-56 | one round, with the compare length it leaves, accepts the entry if and only if its name is the request's first 32 bytes |
| `Directory.LookupMeaning` | student-distrib/file_system.c:31-60 | the entry found is the first whose name equals the first 32 bytes of the request; failure if and only if the request is empty or no entry has that name |
| `Directory.FullNameRead` | student-distrib/file_system.c:268-285 | a read of up to 32 bytes delivers the beginning of the name, one of 32 bytes the whole name |
| `Directory.NameIs` | student-distrib/file_system.c:49-56 | an entry's name is what precedes the first NUL of its 32 bytes |
| `Directory.DirRead` | student-distrib/file_system.c:268-285 | the buffer receives the beginning of the entry's name; -1 past the last entry |
| `Directory.Strncpy` | student-distrib/lib.c:610-621 | the C string, cut at n, padded with NULs to n bytes |
| `Loader.Check` | student-distrib/syscall_handler.c:290-297 | execute's checks classify a command as not executable, failing to load, or loading, and a program that loads is in memory whole |
| `Loader.HeaderMeansLoads` | student-distrib/file_system.c:293-297 | on every well-formed image, load_program cannot fail after the header check, whatever inode number the entry holds |
| `Loader.LoadsIffElf` | student-distrib/syscall_handler.c:290-297 | a command is executed if and only if its file begins with 7f 45 4c 46, or is shorter and the memory at the header buffer completes it |
| `Loader.ShortFileCanLoad` | student-distrib/syscall_handler.c:291-292 | a three-byte file that is executed |
| `Loader.ExecuteKeepsTheMapping` | student-distrib/syscall_handler.c:290-298 | no execute leaves the user page entry at another process's frame |
| `Loader.MachineAgreesOnImage` | student-distrib/syscall_handler.c:253-345 | in every run whose executes ask for files of a well-formed image, user page entry, esp0 and active process name one pid |
| `Grep.LinesAreTheText` | syscalls/ece391grep.c:28-57 | the specification's lines joined by newlines are the text, and no line has a newline in it |
| `Grep.UserStrncmp` | syscalls/ece391support.c:35-46 | 0 if and only if the strings agree up to a NUL or n bytes |
| `Grep.MoveStringDown` | syscalls/ece391support.c:14-17 | the self-overlapping copy moves the whole string to the start of the buffer |
| `Grep.SearchLine` | syscalls/ece391grep.c:42-51 | a line is reported if and only if it contains the non-empty pattern |
| `Grep.ContainsIff` | syscalls/ece391grep.c:42-44 | a line contains the pattern if and only if it is something, the pattern, and something |
| `Grep.FindLineEnd` | syscalls/ece391grep.c:30-32 | the first newline from the start on, or the end of what has been read |
| `Grep.ReportLine` | syscalls/ece391grep.c:41-51 | in-place termination, search and printing of one line: file name, colon, the whole line and a newline, or nothing; only the byte behind the line changes |
| `Grep.MatchingLineIsPrinted` | syscalls/ece391grep.c:41-51 | the report of a one-line text is file name, colon, that line and a newline if the pattern occurs in it, and nothing otherwise |
| `Grep.ReportIsMatchingLines` | syscalls/ece391grep.c:41-51 | the lines of a report are exactly the matching lines in order, each behind the file name and a colon, and then the empty line |
| `Grep.ReportBuffer` | syscalls/ece391grep.c:29-57 | every line that ends in the buffer is reported, and what remains in it followed by the rest of the file is exactly what is still to be reported |
| `Grep.LongLine` | syscalls/ece391grep.c:33-39 | 1024 bytes without a newline mean a line that is too long |
| `Grep.ReadChunk` | syscalls/ece391grep.c:22-27 | a read is short only at the end of the file |
| `Grep.Advance` | syscalls/ece391grep.c:21-60 | one round of the outer loop keeps printed output plus the output still to come equal to the whole output |
| `Grep.WhereTextsMeet` | syscalls/ece391grep.c:28-57 | the lines of a text are those of its two parts, with the last of the first and the first of the second joined |
| `Grep.FullOutput` | syscalls/ece391grep.c:31-57 | a full buffer with a newline behind it is printed by itself |
| `Grep.OutputIsRightIff` | syscalls/ece391grep.c:31-33 | with a newline behind the buffer the output is right if and only if the cut does not go through a line that contains the pattern |
| `Grep.OutputIsMatchingLines` | syscalls/ece391grep.c:28-57 | the lines of the output for a whole file are exactly its matching lines in order, each behind the file name and a colon |
| `Grep.StrayNewlineCutsALine` | syscalls/ece391grep.c:31-33 | a text and a pattern for which it is wrong |
| `Grep.DoOneFile` | syscalls/ece391grep.c:9-66 | for every file without NUL whose lines are below 1024 bytes and every content of the buffer, the output is exactly the lines that contain the pattern, once each and in order, wherever the reads cut the file; with a newline behind the buffer, those of the two parts at the first buffer that does not end in a newline; the two failure messages otherwise |
| `Console.Video.Reset` | student-distrib/lib.c:42-59 | the displayed terminal's page and what the adapter displays are blank and visible, cursor home, other terminals untouched |
| `Console.Video.VertScroll` | student-distrib/lib.c:246-257 | rows move up by one, the last is blank, every attribute of the page is 7, and no byte outside the terminal's cells changes |
| `Console.Video.MoveUp` | student-distrib/lib.c:249-252 | one round of the scroll moves one character and sets one attribute |
| `Console.Video.Putc` | student-distrib/lib.c:289-313 | in place, putc is Put on the terminal's page; a page whose attributes are all 7 stays so; cursors stay in range and no other page changes |
| `Console.Video.PutPrintable` | student-distrib/lib.c:299-310 | a drawn character gets attribute 7 and no other attribute changes, unless the page scrolls, which makes all of them 7 |
| `Console.Video.PutcNoScroll` | student-distrib/lib.c:321-335 | a character is stored and the row does not change; a newline takes the cursor out of the page if and only if it stood in the last row; attributes that are all 7 stay so |
| `Console.Video.BackspaceHelper` | student-distrib/lib.c:264-283 | in place, one step back that blanks that cell and never scrolls; attributes that are all 7 stay so |
| `Console.Video.Write` | student-distrib/keyboard.c:153-174 | a write is the characters one after the other; attributes that are all 7 stay so |
| `Console.OtherPagesKeep` | student-distrib/lib.c:289-313 | a change inside one terminal's cells leaves what the others show |
| `Console.BackspaceStaysOnPageIff` | student-distrib/lib.c:264-283 | the cell that backspace writes lies in the terminal's page if and only if the cursor is not in the top-left corner |
| `Text.PutRefines` | student-distrib/lib.c:289-313 | putc on the page is typing into the unbounded text of which the page shows the last 25 rows |
| `Text.BackRefines` | student-distrib/lib.c:264-283 | backspace on the page is stepping back in that text |
| `Text.BackspaceUndoesTyping` | student-distrib/lib.c:264-335 | backspace after a printable character restores position and text but for that one blank cell, also across a line wrap and a scroll |
| `Text.WrappedGrows` | student-distrib/lib.c:289-313 | typing one character into wrapped rows is wrapping the longer text |
| `Text.ChunksOfALine` | student-distrib/lib.c:289-313 | wrapping cuts a line into rows of 80 and a shorter last one, which joined are the line |
| `Text.WrappedLine` | student-distrib/lib.c:289-313 | a line feed or a carriage return starts new rows, for what is visible of the line behind it |
| `Text.VisibleIs` | student-distrib/lib.c:289-313 | what is visible of a line is its characters but for the NULs |
| `Text.PageIsTailOfWrappedText` | student-distrib/lib.c:246-313 | after any characters, a fresh page shows the last 25 rows of the text wrapped at 80 columns, cursor behind the last character |
| `Text.PageShowsTheLastRows` | student-distrib/lib.c:246-313 | row by row, in numbers: a fresh page of 25 rows of 80 shows, after any characters, the last 25 wrapped rows padded with blanks, and the cursor stands behind the last one |
| `Text.PageShowsStrokes` | student-distrib/lib.c:246-335 | after any run of characters and backspaces, none of these in the top-left corner, the page shows the last 25 rows of the text that the same run makes |
| `Echo.PageShowsTheEditedLine` | student-distrib/keyboard.c:314-354 | as long as no backspace removes a NUL from the line, whatever else is pressed, the page shows the text before the line and then its visible characters, blank behind them, with the cursor there; backspace never meets the top-left corner, also when the line wraps or scrolls |
| `Echo.PageShowsTheLineIff` | student-distrib/keyboard.c:314-354 | under any keys that meet the corner with no backspace, the page shows the line in this way if and only if no backspace has removed a NUL |
| `Echo.MovesIff` | student-distrib/keyboard.c:317-354 | the cursor never ends behind the visible line, and at its end if and only if no backspace has removed a NUL |
| `Echo.KeysMoveThePlace` | student-distrib/keyboard.c:314-354 | under any such keys the page shows the last 25 rows of a text whose position has moved by Moves |
| `Echo.BackspaceMeetsTheCornerIff` | student-distrib/keyboard.c:317-319 | the next backspace meets the corner if and only if the keys have moved the cursor back to the first cell shown |
| `Echo.BackspaceEatsThePrompt` | student-distrib/keyboard.c:317-352 | a key without a character and a backspace: the line is empty again and the character before it on the screen is gone |
| `Echo.BackspaceLeavesThePage` | student-distrib/keyboard.c:317-352 | on a fresh page the same two keys take backspace to the top-left corner |
| `Echo.PageShowsOutputAndLine` | student-distrib/keyboard.c:314-354 | on a fresh page after any output, such a line is shown behind the last 25 rows of the wrapped output |
| `Bytes.Strlen` | student-distrib/lib.c:400-405 | the distance to the first NUL |
| `Bytes.Strncmp` | student-distrib/lib.c:573-587 | 0 if and only if the C strings cut at n are equal |
| `MemoryOps.Memmove` | student-distrib/lib.c:542-560 | dest holds what src held before the call, for every overlap, and nothing else changes |
| `MemoryOps.Memcpy` | student-distrib/lib.c:496-533 | at every alignment, length and overlap no byte outside dest changes, and dest holds what src held if and only if each byte that the copy reads from itself was equal to the byte dest - src before it; in particular whenever dest does not overlap src from above |
| `MemoryOps.Memset` | student-distrib/lib.c:413-447 | exactly n bytes get the low byte of c at every alignment and length |
| `MemoryOps.CopiedIff` | student-distrib/lib.c:496-533 | byte head, word body and byte tail preserve src if and only if it is undisturbed |
| `MemoryOps.OverlapFromAboveLosesBytes` | student-distrib/lib.c:496-533 | copying two different bytes one place up does not |
| `Numbers.RoundTrip` | student-distrib/lib.c:345-375 | parsing a numeral gives the value back; its digits are below the radix and there is no leading zero |
| `Numbers.DigitsAreLookedUp` | student-distrib/lib.c:346 | the digits are the characters of the lookup table, and their values the places in it |
| `Numbers.NumeralIsUnique` | student-distrib/lib.c:345-375 | no other digit string without a leading zero denotes the value |
| `Numbers.WordLength` | student-distrib/lib.c:345-375 | a 32-bit value has at most 32 digits in every radix |
| `Numbers.Strrev` | student-distrib/lib.c:381-394 | the string is reversed in place and nothing else changes |
| `Numbers.Itoa` | student-distrib/lib.c:345-375 | the numeral of every 32-bit value in radix 2 to 36 and a NUL are written, and nothing else |
| `Numbers.PrintHex` | student-distrib/lib.c:153-172 | %#x prints exactly eight hexadecimal digits that parse to the value |
| `Waveform.WaveIsPeriodic` | fish/blink.S:49-99 | after n ticks an entry is on if and only if n mod (a + b) < a, for all 16-bit lengths, 0 and lengths above 32768 lasting one tick |
| `Blink.List.Malloc` | fish/fish.c:160-170 | the lowest of the available slots, NULL if and only if none is |
| `Blink.List.Free` | fish/fish.c:172-175 | the set of available slots grows by exactly this one, and no other slot changes |
| `Blink.List.constructor` | fish/fish.c:21-28 | an empty list over free slots |
| `Blink.List.Add` | fish/blink.S:105-184 | on an intact list add fails if and only if the location is bad or all 2000 slots are used; otherwise the entry becomes the newest and its character is painted; the list stays valid if and only if it failed or the location is not 0; its effect on any list is AddStep |
| `Blink.AddAfterZeroMakesALoop` | fish/blink.S:159-162 | after an add at location 0 the next add at a good location takes the same slot and makes it its own successor, so no walk along the list ends |
| `Blink.List.FindHelper` | fish/blink.S:351-379 | the newest entry at the location, or NULL |
| `Blink.List.Find` | fish/blink.S:302-349 | the newest entry's slot; -1 if and only if no entry is at the location |
| `Blink.List.Remove` | fish/blink.S:187-237 | the newest entry at the location goes and no other, and the screen stays; -1 if and only if there is none |
| `Blink.List.FindPrev` | fish/blink.S:207-213 | the walk ends at the node before the one to remove |
| `Blink.List.Unlink` | fish/blink.S:214-223 | the node before it, or the head, takes over the next pointer, and the slot is freed |
| `Blink.List.RtcTasklet` | fish/blink.S:49-99 | every entry is one tick older, what switches is painted in list order, and no attribute changes |
| `Blink.List.TickSlot` | fish/blink.S:60-91 | one round of the tick's loop |
| `Blink.AttributesStay` | fish/blink.S:49-99 | the paint of a whole tick leaves every attribute byte |
| `Blink.FullIff` | fish/fish.c:160-170 | a repetition-free list of slots is as long as the array if and only if every slot is on it |
| `Blink.CutLinked` | fish/blink.S:214-223 | removing any node, the head included, leaves an acyclic list of the others |
| `Blink.CutStores` | fish/blink.S:214-223 | and its nodes are again exactly the slots in use |
| `Blink.ScreenShowsTheWaves` | fish/blink.S:49-237 | over any run of add, remove and tick with one entry per location, the screen shows every entry's character according to its wave |
| `LineDiscipline.Keyboard.PressKey` | student-distrib/keyboard.c:314-354 | in place, an editing key is Press |
| `LineDiscipline.Keyboard.PressEnter` | student-distrib/keyboard.c:297-312 | in place, Enter keeps the line for a waiting read and drops it otherwise; it raises the Enter flag and makes nothing erasable |
| `LineDiscipline.Keyboard.FinishRead` | student-distrib/keyboard.c:80-140 | in place, the second half of terminal_read; it delivers min(n, 128) bytes |
| `LineDiscipline.Keyboard.Shift` | student-distrib/keyboard.c:114-115 | what is kept moves to the start of the buffer and NULs follow |
| `LineDiscipline.ReadStaysInsideIff` | student-distrib/keyboard.c:87-131 | what a read moves and clears lies in the buffer if and only if it asks for a byte and either the buffer is not full to its last byte or it asks for more than 128 |
| `LineDiscipline.RunIsEdited` | student-distrib/keyboard.c:62-355 | in every run of keys, Enters and reads of any size the buffer is the undelivered text and NULs, and the next store lies in the buffer if and only if the text leaves room: fewer than 128 characters for a key, at least one for a backspace |
| `LineDiscipline.TypedLine` | student-distrib/keyboard.c:326-354 | a line takes the first 127 characters typed and no more |
| `LineDiscipline.BackspaceRemovesTheLast` | student-distrib/keyboard.c:314-323 | backspace removes the last character of the line, and so undoes a character that the line took |
| `LineDiscipline.ReadDeliversTheText` | student-distrib/keyboard.c:62-140 | each read of any size delivers the beginning of the undelivered text, NUL-padded, with a final newline, and leaves the rest |
| `LineDiscipline.AKeyCanLeaveTheBuffer` | student-distrib/keyboard.c:352 | a run whose next key is stored behind the buffer |
| `LineDiscipline.AReadCanLeaveTheBuffer` | student-distrib/keyboard.c:115 | a run whose read clears the byte behind the buffer |
| `LineDiscipline.ABackspaceCanLeaveTheBuffer` | student-distrib/keyboard.c:320 | a run whose backspace is stored before the buffer |
| `LineDiscipline.RunFollows` | student-distrib/keyboard.c:297-355 | with reads of at least 128 bytes and no key between Enter and the end of a read, nothing is ever stored outside the buffer, which holds the edited line |
| `LineDiscipline.ReadDeliversTheEditedLine` | student-distrib/keyboard.c:62-140 | each such read delivers the edit-fold of the keys since the last Enter, NUL-padded, with a final newline |
| `LineDiscipline.ShortReadSplitsTheLine` | student-distrib/keyboard.c:103-117 | what a read of 1 to 127 bytes delivers, without its newline, and what stays are the line again |
| `LineDiscipline.ReadsLeave` | student-distrib/keyboard.c:103-117 | any number of short reads can follow each other, and the buffer then holds what they have left |
| `LineDiscipline.ShortReadsDeliverTheLine` | student-distrib/keyboard.c:103-117 | however a line is cut into short reads, they deliver it without loss or repetition |

## Left out

- Inline assembly: saved esp and ebp, `iret` frames, GDT, IDT and TSS set-up, exception handlers. Only the value of esp0 and the mask arithmetic are modelled.
- Boot is one step: a tick between two rounds of execute_shells is not modelled. Kernel.Machine.PitInt covers a tick before the running terminal has a process.
- Kernel.Machine.GetNextPid: the code reads one word past the table when all slots are used; the model compares the index first, and either value of that word gives the same result.
- Processes.FilesRefines: a system call that changes descriptors is one event that replaces the whole file array; read enables interrupts before it copies, so a tick inside a read is modelled as before or after it.
- Processes.ExecRefines: the command line is not parsed; what execute finds behind it is the parameter `image`, which `Loader` derives from the file and the memory at the header buffer. The name and argument split depends on bytes past the end of the string.
- Loader.Check: the header buffer is taken to lie in at least 32 bytes of memory, since blanking can run past its 4 bytes; the word that stands where a length would be, for an inode number out of range, is the parameter `stray`; the rest of an ELF file is not looked at.
- FileSystem.ClearBuffer: requires that the buffer has 32 bytes or holds a NUL; otherwise the code blanks past its end, as FileSystem.BlankingStaysInsideIff says.
- FileSystem.FileRead: requires of the buffer what FileSystem.ClearBuffer does.
- Directory.DirRead: requires of the buffer what FileSystem.ClearBuffer does.
- FileSystem.BlockPointer: a block number past the inode's table is made from whatever word follows it, here 0, and is never followed.
- Descriptors.Process.Read: for a file or a directory it requires of the buffer what FileSystem.ClearBuffer does; what a terminal read returns is a parameter; the RTC's read returns 0 without the wait; null buffers are not modelled.
- Directory.ReadDentryByName: names are C strings; a null pointer is not modelled.
- Memory arguments are indices into one array, so pointers into different objects cannot alias by address arithmetic.
- Grep.DoOneFile: requires lines below 1024 bytes, a file without NUL and a regular file: a longer line is cut at the end of the buffer, and a NUL ends the line that is searched and printed. Running out of descriptors is not modelled, and a regular file's close cannot fail.
- Grep.ReportBuffer: requires short lines and no NUL, like Grep.DoOneFile.
- Grep.Advance: requires short lines and no NUL, like Grep.DoOneFile.
- Grep.UserStrncmp and Grep.MoveStringDown model the grep program's copies of strncmp and strcpy; the loop over the directory in its main is left out.
- Console.Video.BackspaceHelper: requires that the cursor is not in the top-left corner, where Console.BackspaceStaysOnPageIff says the code leaves the page. Editing a line takes it there only after a backspace has removed a NUL, exactly when Echo.BackspaceMeetsTheCornerIff says.
- Console.Video.Reset: the cursor registers are left out.
- Numbers.Itoa: a radix outside 2 to 36, which would read outside the digit table or divide by zero, is not modelled. The user library's copies of itoa and strrev are the same code and are modelled once.
- Numbers.PrintHex: the other printf formats are left out.
- Blink.List.Find: the two copies from and to user memory are the argument and the returned slot.
- Blink.List.Add: location 0 is in its contract; Blink.ScreenShowsTheWaves requires other locations and one entry per location.
- The sync operation of the blink list: its conditional move never moves, so it always paints the off character; failing user copies, which never fail in this build.
- Echo: Enter ends the line and is not an editing key; no other key is a newline in the scancode tables.
- LineDiscipline.Keyboard.PressKey: requires that the store lies in the buffer; LineDiscipline.RunIsEdited says exactly when it does.
- LineDiscipline.Keyboard.FinishRead: requires that the stores lie in the buffer, like PressKey; a read of fewer than one byte, which stores before its own read buffer, is not modelled.
- LineDiscipline: one terminal without switching; the wait for Enter is the gap between two events. What happens after a store outside the buffer is not modelled.
- Terminal switching, scancode tables, clear-screen key, RTC, PIC and PIT ports, vidmap, getargs, signals and the small user programs.
