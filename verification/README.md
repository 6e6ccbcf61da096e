# A verified model of a small teaching kernel and its user programs

This project models, in Dafny, the parts of the kernel under `student-distrib/`, of the user programs under
`syscalls/`, and of the blinking-character program under `fish/` that carry state over long runs, and proves what
those parts do over every input and every run. Code that changes things in place is modelled in place: the process
table, the pages and keyboard buffer of the terminals, the linked list of blinkers in its static pool, the page
tables and the string buffers are arrays and fields that methods change, and each method is proved against a step
function on values. The main results are lemmas about those functions.

| module | what it models |
|---|---|
| `Bytes` | bytes, C strings, 32-bit arithmetic |
| `FileSystem` | the file system image, block-chained reads, the directory, name lookup |
| `DiskImages`, `WrittenFiles` | an image written block by block, and what is read from it |
| `Descriptors` | the process table as a state machine over open, close, read, execute and halt of all processes |
| `Directories` | the shared directory cursor, and enumeration over runs of all processes |
| `Processes` | which processes are in use after any run, against a set of numbers |
| `Kernel` | the system calls on the table they update in place, and the command parser |
| `Programs` | `cat` and `ls` on top of the system calls |
| `Grep`, `GrepProgram` | `do_one_file` with its sliding window, and the whole `grep` |
| `GrepOutput` | what is printed, read back as lines |
| `Console`, `WrappedText` | `putc`, `rm_c` and scrolling against an unbounded log, and the log against wrapped text |
| `Keyboard`, `Terminals`, `TerminalRuns` | key tables, the line editor, and three terminals multiplexed on one screen |
| `Consoles` | three consoles without a shared count, and when runs of scan codes are theirs |
| `KeyMaps` | the four tables written out, and what every key is for |
| `Echo` | what each terminal shows after any run: the log of what its keys echo and its program writes |
| `Driver` | the keyboard, timer and terminal code on the arrays it shares |
| `Blinkers`, `BlinkDriver` | the blinkers as a sequence, and the commands and tasklet on linked slots of the pool |
| `BlinkEffects` | what each command changes and when it is refused |
| `Frames`, `Animation` | `add_frames`, and what its blinkers show after any number of ticks |
| `Paging` | the page directory and tables, read by the 32-bit page walk |
| `Numbers` | `itoa`, `strrev` and the number conversions of `printf` |
| `Arguments`, `Emulator` | cutting a command into words in place, and joining arguments again |
| `CommandWords` | words under the path in front of them, and at the end of a line |
| `Counterexamples` | inputs and runs on which the code falls short |

The central statements, one for each part:

- On an image written as a boot block, inodes and data blocks, the parsed directory is the written one
  (`DiskImages.ParsingGivesBackEntries`), a file is its scattered blocks put together (`DiskImages.ContentIsText`), and
  `cat` prints the text that was written (`WrittenFiles.CatWritten`).
- A descriptor that is read with counts that are not negative returns, over any run of all processes, a prefix of
  its file (`Descriptors.StreamIsPrefix`), and so `cat` emits its file exactly (`Programs.Cat`).
- Directory reads of all processes return each entry once in index order, then 0, and then start again
  (`Directories.DirectoryIsEnumerated`), and it is known exactly which calls disturb them
  (`Directories.CursorStaysExactly`).
- After any run the processes in use are those executed and not yet halted (`Processes.RunShowsPool`), and a program
  that loads is refused exactly with six of them (`Processes.SixAtOnceExactly`).
- `grep` prints exactly the matching lines of all files (`GrepProgram.GrepAll`, `GrepOutput.AllMatchingExactly`),
  wherever its window cuts them, for exactly the files described by `Grep.GrepFindsLinesExactly`.
- What is on the screen is the end of the wrapped text (`WrappedText.ScreenShowsEndOfText`), and the multiplexer is
  three independent consoles exactly while the shared character count agrees with the line on screen
  (`Consoles.InputRefinesExactly`, `Consoles.RunRefines`), as in every run that enters lines before leaving them
  (`Consoles.TidyRunIsIndependent`).
- Each key stands for its cell in one of four tables (`KeyMaps.KeyCharIsTable`), every printable character has a key
  (`KeyMaps.EveryCharacterHasKey`), and after any run each terminal shows the log of what its own keys echo and its
  program writes (`Echo.RunShowsBook`).
- The keyboard buffer is an edited line through a whole session (`TerminalRuns.SessionKeepsEditing`), and backspaces
  undo typing (`TerminalRuns.BackspacesUndoTyping`).
- A blinker keeps the closed-form time of `Blinkers.TicksInPhase` through every run, and two texts laid over each
  other by `fish` alternate on the screen (`Animation.LitCellsAlternate`), which is otherwise left as it was
  (`Animation.DarkCellsStay`).
- Over all 2^32 addresses the page tables give the intended memory map (`Paging.WalkIsMemoryMap`), after any switches
  of process (`Paging.SwitchesKeepMemoryMap`).
- Numbers are printed canonically and read back (`Numbers.NumeralIsExact`), and arguments survive being joined and
  cut again (`Arguments.ArgumentsSurvive`).

## Where the code falls short

These properties do not hold of the code in general. Each is proved with the exact condition under which it does
hold, named first, and with an input or a run for which it does not, named second and found in `Counterexamples`.

- A read past the end of a file but inside its last block delivers bytes that are not the file's
  (`FileSystem.ReadDataExact`; `ReadPastTheEndDelivers`).
- A negative count moves the cursor back by one (`Descriptors.ReadAdvancesExactly`; `NegativeReadMovesBack`).
- All open directories share one cursor (`Directories.CursorStaysExactly`; `SecondReaderMissesEntry`).
- An entry with an empty name looks like the end of the directory (`Programs.ListingComplete`;
  `EmptyNameEndsListing`).
- `grep` splits matching lines of more than 1024 bytes, and a newline left over in the last cell of its array, which
  is inspected before it is ever written, can cut one line in two (`Grep.GrepFindsLinesExactly`; `LongLineIsSplit` and
  `StaleNewlineCutsLine`).
- The three terminals share one character count, so that a full line on one of them stops typing on all
  (`Consoles.InputRefinesExactly`; `FullCountBlocksEveryTerminal`).
- An enter on another terminal resets that count, and typing can then run past the keyboard buffer
  (`TerminalRuns.EditingStaysInBoundsExactly`; `EnterElsewhereOverruns`).
- The 127th character takes the last NUL out of the keyboard buffer, on which the next read relies
  (`TerminalRuns.LastCellSurvivesExactly`; `FullLineHasNoNul`).
- A blinker at location 0 makes its slot look free, and a second one then links the slot to itself
  (`Blinkers.StepKeepsValidExactly`; `LocationZeroBreaksList`, and `BlinkDriver.ZeroLocationLoops` for every pool).
- A sync always shows the off character (`Blinkers.SyncKeepsDisplayedExactly`; `SyncShowsWrongCharacter`).
- `sys_vidmap` accepts four pointer values through which its store leaves the user page
  (`Paging.VidMapStoreFaultsExactly`; `VidMapLeavesUserPage`).
- `ece391_getargs` writes a terminator one byte behind its buffer when some first arguments fill it
  (`Emulator.GetArgs`; `ArgumentSpills`).

The documentation above `strncpy` calls it `strcpy`, and the comments in `sys_open` mark an empty slot with -1 where
the code tests for 0; the model follows the code.

## Model

| member | source | states |
|---|---|---|
| `FileSystem.ReadDataExact` | student-distrib/FileSystem.c:80-89 | a read delivers exactly the slice of the file that starts at the offset, cut at the end of the file, if and only if the offset is not past the end inside the last block; an offset past the end there delivers bytes the file does not have |
| `FileSystem.ReadData` | student-distrib/FileSystem.c:59-106 | walking the scattered blocks returns the number of delivered bytes, places them at the buffer position and leaves every other byte of the buffer alone; on an image written block by block they are the slice of the written text (`DiskImages.ReadWritten`) |
| `FileSystem.CopyRun` | student-distrib/FileSystem.c:91-101 | the copying loop of one block places one consecutive run of the delivered bytes and nothing else |
| `FileSystem.BlockTurn` | student-distrib/FileSystem.c:70-89 | where the walk starts in a block and how much it takes: the next bytes to deliver, to the end of the block or of the request |
| `FileSystem.BlockRun` | student-distrib/FileSystem.c:91-101 | within one block the delivered bytes are consecutive in memory |
| `FileSystem.AllDelivered` | student-distrib/FileSystem.c:70-74 | when the blocks run out, everything has been delivered; the extra block number that is looked up then is never copied from |
| `FileSystem.ParseBootBlock` | student-distrib/FileSystem.c:171-200 | the boot block parse copies every directory entry and the inode count; on a written image they are the entries that were written (`DiskImages.ParsingGivesBackEntries`) |
| `DiskImages.ParsingGivesBackEntries` | student-distrib/FileSystem.c:171-200 | for every list of at most 63 entries, parsing the boot block that an encoder of its own wrote (64 header bytes, then 32 name bytes, type, inode and 24 zero bytes an entry, numbers lowest byte first) gives back exactly those entries and the inode count |
| `DiskImages.EntryIsRead` | student-distrib/FileSystem.c:189-197 | each entry is read back from its 64 bytes with its name, type and inode in their places |
| `DiskImages.HeaderWord` | student-distrib/FileSystem.c:182-184 | the counts are found in the first words of the boot block |
| `DiskImages.InodeWord` | student-distrib/FileSystem.c:65-71 | the length and the block numbers of an inode are found in the words of its block, behind the boot block and the inodes before it |
| `DiskImages.ContentIsText` | student-distrib/FileSystem.c:65-106 | on an image written as boot block, inodes and data blocks, a file is the concatenation of the data blocks its inode names, in that order and however scattered, cut to its length |
| `DiskImages.ReadWritten` | student-distrib/FileSystem.c:59-106 | a read of a written file delivers the slice of the written text, for every offset up to its end |
| `WrittenFiles.WrittenTextIsRead` | student-distrib/sys_calls.c:31-67 | a program that opens a written file by name gets the written text |
| `WrittenFiles.CatWritten` | syscalls/ece391cat.c:6-31 | `cat` of a written file prints what was written, and fails if and only if no slot is free |
| `WrittenFiles.ExecutableExactly` | student-distrib/FileSystem.c:262-275 | the executable check accepts a file of at least 28 bytes if and only if its text begins with the four bytes of the ELF mark and the entry point at byte 24 is not -1 |
| `FileSystem.StrNCmp` | student-distrib/lib.c:535-549 | zero exactly when the two C strings agree in their first n bytes |
| `FileSystem.StrNCpy` | student-distrib/lib.c:572-583 | the C string cut to 32 bytes, followed by NULs only |
| `FileSystem.CopyName` | student-distrib/FileSystem.c:231-254 | the name goes out up to its first NUL or 32 bytes, and no other byte of the buffer changes |
| `FileSystem.PaddedKeepsName` | student-distrib/FileSystem.c:231-254 | padding and cutting again gives back the name, 32-byte names included |
| `FileSystem.Lookup` | student-distrib/FileSystem.c:16-28 | the result is the least index with the name, or -1 when no entry has it |
| `FileSystem.ReadDentryByName` | student-distrib/FileSystem.c:16-28 | the search over the entries finds what the lookup specifies |
| `FileSystem.LookupFindsOwnIndex` | student-distrib/FileSystem.c:16-28 | the name of an entry looks up to that very entry if and only if no earlier entry has the same name |
| `Descriptors.FreeSlot` | student-distrib/sys_calls.c:39-42 | the lowest unused slot, all below it used |
| `Descriptors.FreePcb` | student-distrib/sys_calls.c:493-501 | the lowest free process, all below it in use |
| `Descriptors.OpenFailsExactly` | student-distrib/sys_calls.c:31-67 | open fails, without any change, if and only if the name is unknown or slots 2 to 7 are all used |
| `Descriptors.CloseFailsExactly` | student-distrib/sys_calls.c:77-85 | close fails, without any change, if and only if the descriptor is 0, 1, out of range or not open; otherwise just that slot becomes free, with its cursor at 0 |
| `Descriptors.ReadFailsExactly` | student-distrib/sys_calls.c:111-117 | a read of a descriptor other than 0 fails if and only if it is 1, out of range or not open, or the count for a file is negative |
| `Descriptors.OpenStartsAtZero` | student-distrib/sys_calls.c:39-63 | a successful open takes the lowest unused slot and its cursor is 0, although open never sets it |
| `Descriptors.StepKeepsValid` | student-distrib/sys_calls.c:31-85 | every open, close, read, execute and halt keeps the process table valid; in particular a slot that holds no open file has cursor 0 |
| `Descriptors.OpenKeepsValid` | student-distrib/sys_calls.c:31-67 | open keeps the table valid |
| `Descriptors.CloseKeepsValid` | student-distrib/sys_calls.c:77-85 | close keeps the table valid |
| `Descriptors.ReadKeepsValid` | student-distrib/sys_calls.c:376-386 | read keeps the table valid, with cursors below 2^32 |
| `Descriptors.CloseFromCloses` | student-distrib/sys_calls.c:271-274 | the closing loop of halt leaves no slot from 2 on in use |
| `Descriptors.Undisturbed` | student-distrib/sys_calls.c:376-386 | a call changes no slot but the ones it acts on, in no process |
| `Descriptors.ReadMovesCursor` | student-distrib/sys_calls.c:376-386 | one read returns the next bytes of the file and changes only the cursor of its slot |
| `Descriptors.ReadAdvancesExactly` | student-distrib/sys_calls.c:380-381 | the cursor moves past the bytes returned if and only if the count is not negative; a negative count moves it back by one |
| `Descriptors.EndOfFileStays` | student-distrib/FileSystem.c:148-163 | the state stays and 0 is returned, for a positive count, if and only if the cursor is at the end of the file |
| `Descriptors.StepFollows` | student-distrib/sys_calls.c:376-386 | one event of any process keeps the record of what a descriptor has returned true |
| `Descriptors.CursorCountsBytes` | student-distrib/sys_calls.c:376-386 | over every run of all processes the cursor is the sum of the return values since the open, modulo 2^32 |
| `Descriptors.StreamIsPrefix` | student-distrib/sys_calls.c:376-386 | over every run in which a descriptor is read with counts that are not negative, the results concatenate to the prefix of its file that ends at the cursor, whatever the other descriptors and processes do |
| `Descriptors.FailedExecuteIsHarmless` | student-distrib/sys_calls.c:204-225 | a command that cannot be loaded leaves every process in use as it was and the same one running |
| `Descriptors.ExecuteOpensTerminals` | student-distrib/sys_calls.c:337-366 | a new process takes the lowest free index and has exactly descriptors 0 and 1 open |
| `Descriptors.DirectoriesShareCursor` | student-distrib/FileSystem.c:231-254 | reads of any two open directories, of any processes, return the same and move the same cursor |
| `Directories.CursorStaysExactly` | student-distrib/FileSystem.c:171-254 | a call of any process leaves the directory cursor where it is if and only if it does not act on a directory, or the cursor is at the start and the call does not read an entry |
| `Directories.CursorFollows` | student-distrib/FileSystem.c:171-254 | where each call leaves the cursor: one further for a read that returns an entry, at the start for an open by a dot name, a close, a halt with a directory open, and a read at the end |
| `Directories.CloseFromRewinds` | student-distrib/sys_calls.c:271-274 | the closing loop of halt rewinds the cursor exactly when the process has a directory open |
| `Directories.DirectoryIsEnumerated` | student-distrib/FileSystem.c:231-254 | over every run of all processes the directory reads since the last rewind return each entry once in index order, then 0, then start again, and the cursor counts them modulo the number of entries plus one |
| `Directories.OnlyReaderEnumerates` | student-distrib/FileSystem.c:231-254 | a descriptor that alone acts on the directory since its rewind gets that enumeration, whatever else runs in between |
| `Kernel.ParseCommand` | student-distrib/sys_calls.c:158-202 | the command is cut into name and argument, or refused when either is longer than 32 characters |
| `Kernel.SkipSpaces` | student-distrib/sys_calls.c:159-161 | stops at the first character that is not a space |
| `Kernel.TakeWord` | student-distrib/sys_calls.c:164-177 | takes the characters up to the end of the word, or gives up exactly when there are too many |
| `Kernel.Kernel.constructor` | student-distrib/FileSystem.c:171-200 | the boot state is valid: the directory is parsed and every table is zero |
| `Kernel.Kernel.SysOpen` | student-distrib/sys_calls.c:31-67 | the table in place becomes what the open step specifies, with its return value |
| `Kernel.Kernel.SysClose` | student-distrib/sys_calls.c:77-85 | the table in place becomes what the close step specifies; closing a directory rewinds the shared cursor |
| `Kernel.Kernel.SysRead` | student-distrib/sys_calls.c:111-117 | table, cursor and buffer become what the read step specifies, and the rest of the buffer is untouched |
| `Kernel.Kernel.FileRead` | student-distrib/sys_calls.c:376-386 | the return value is added to the 32-bit cursor, even -1 |
| `Kernel.Kernel.DirRead` | student-distrib/FileSystem.c:231-254 | one name per call in index order, then 0 and a restart |
| `Kernel.Kernel.GetFreePcb` | student-distrib/sys_calls.c:493-501 | the lowest process that is not in use |
| `Kernel.Kernel.InitPcb` | student-distrib/sys_calls.c:337-366 | all slots closed with cursor 0, then descriptors 0 and 1 opened |
| `Kernel.Kernel.FindProgram` | student-distrib/FileSystem.c:262-275 | succeeds exactly when the command names a file of the directory that starts with the ELF mark and whose entry point is not 0xFFFFFFFF |
| `Kernel.Kernel.Abandon` | student-distrib/sys_calls.c:207-225 | a failed execute gives the process back and lets the caller run on |
| `Kernel.Kernel.SysExecute` | student-distrib/sys_calls.c:128-225 | the result is -1 if and only if the program does not load or all six processes are in use; the process table becomes what the execute step specifies, so a failed execute gives its process back (`Processes.ExecuteUsesOne`) |
| `Kernel.Kernel.Release` | student-distrib/sys_calls.c:267-275 | halt closes every descriptor of the process that ran, and that process is not in use any more; all others are as they were (`Processes.HaltFreesProcess`) |
| `Processes.ExecuteFailsExactly` | student-distrib/sys_calls.c:128-225 | an execute fails if and only if its program does not load or all six processes are in use |
| `Processes.ExecuteUsesOne` | student-distrib/sys_calls.c:132-225 | after an execute a process is in use if and only if it was before, or the call succeeded and it is the one that runs now, which is the lowest that was free; those in use before are unchanged |
| `Processes.HaltFreesProcess` | student-distrib/sys_calls.c:267-275 | after a halt a process is in use if and only if it was before and is not the one that ran; every other process is as it was |
| `Processes.OthersKeepProcesses` | student-distrib/sys_calls.c:31-85 | opens, closes and reads use and free no process |
| `Processes.StepShowsPool` | student-distrib/sys_calls.c:128-275 | each event changes the processes in use as it changes a set of numbers: a program that loads comes alive under the least free number, a halt ends the one that runs |
| `Processes.RunShowsPool` | student-distrib/sys_calls.c:128-275 | over every run from the zeroed tables the processes in use are exactly those executed and not yet halted |
| `Processes.SixAtOnceExactly` | student-distrib/sys_calls.c:493-501 | after every run a program that loads is refused if and only if six processes are alive |
| `Programs.ReadTakesFront` | student-distrib/sys_calls.c:376-386 | one read takes the front off what a descriptor still has to give, and 0 means that nothing is left |
| `Programs.EverythingAfterOpen` | student-distrib/sys_calls.c:31-67 | what a fresh descriptor has to give: the whole file, nothing for a device, the names from the first entry on for the directory |
| `Programs.Read` | syscalls/ece391cat.c:21-21 | the bytes read and what is left concatenate to what was left before, the buffer changes nowhere else, and for a file no other slot changes |
| `Programs.CopyOut` | syscalls/ece391cat.c:21-28 | the loop emits exactly what was left to read, and it terminates |
| `Programs.Cat` | syscalls/ece391cat.c:16-31 | `cat` emits its file byte for byte, or its message and 2 when the open fails |
| `Programs.ListingComplete` | syscalls/ece391ls.c:18-26 | the names met are all names in index order if and only if no name is empty |
| `Programs.ReadLine` | syscalls/ece391ls.c:18-26 | one turn of `ls` takes one name and its newline off the listing |
| `Programs.ListOut` | syscalls/ece391ls.c:18-26 | the loop of `ls` emits the rest of the listing |
| `Programs.Ls` | syscalls/ece391ls.c:8-29 | `ls` prints each name up to the first empty one on a line of its own, in index order, or its message when the open fails |
| `Grep.GrepFindsLinesExactly` | syscalls/ece391grep.c:20-60 | the buffered scan finds exactly the matching lines of the whole file, in order and once each, if and only if no matching line is longer than 1024 bytes and, when the never-written cell behind the window held a newline, no matching line lies across the one cut this causes |
| `Grep.PiecesFindLinesExactly` | syscalls/ece391grep.c:20-60 | without that stale newline: if and only if no matching line is longer than 1024 bytes |
| `Grep.ScannedIsCut` | syscalls/ece391grep.c:29-39 | with it the file is scanned like two files, cut at the end of the first window that does not end in a newline |
| `Grep.CutFindsLines` | syscalls/ece391grep.c:29-39 | searching the two parts separately gives the same lines if and only if the line around the cut does not match or is not split |
| `Grep.TurnPrints` | syscalls/ece391grep.c:40-57 | one turn of the inner loop: what it prints and what remains to be printed add up |
| `Grep.SearchLine` | syscalls/ece391grep.c:42-51 | the search says whether the pattern occurs in the line, including that an empty pattern is found in no line |
| `Grep.StartsWith` | syscalls/ece391support.c:35-46 | the comparison is equal exactly when the whole pattern stands there |
| `Grep.FindLineEnd` | syscalls/ece391grep.c:30-32 | the first newline of the window or its end |
| `Grep.CarryDown` | syscalls/ece391support.c:14-17 | the copy within one array moves the unfinished line to the front, byte for byte |
| `Grep.KeepLine` | syscalls/ece391grep.c:33-39 | an unfinished line ends up at the front of the array with its length |
| `Grep.PrintTurn` | syscalls/ece391grep.c:40-57 | a line is printed exactly if it matches, and the array behind it is unchanged |
| `Grep.ScanWindow` | syscalls/ece391grep.c:28-57 | the inner loop prints the lines of the window and keeps the unfinished one at the front |
| `Grep.Refill` | syscalls/ece391grep.c:22-27 | the read fills the array behind the carried bytes; at least one byte is requested, and no carried byte is a newline |
| `Grep.ScanFile` | syscalls/ece391grep.c:20-60 | the two loops print the matching pieces of the file and terminate |
| `Grep.DoOneFile` | syscalls/ece391grep.c:9-66 | the output of `do_one_file` for every file, pattern and initial content of the last array cell, its return codes, and that it gives its slot back and moves nothing else |
| `GrepProgram.GrepAll` | syscalls/ece391grep.c:68-97 | `grep` prints what the scan finds in every file whose name does not start with a dot, in index order, each line behind its file name, for every content of the cell that is never initialised; where all files are clean that is exactly their matching lines; with all slots used it stops at the first file; all return codes and messages |
| `GrepOutput.LinesMakeText` | syscalls/ece391grep.c:29-57 | lines have no newlines in them, and written out with a newline each they are the text again, with a last newline if it had none |
| `GrepOutput.HitsCount` | syscalls/ece391grep.c:40-51 | a line is a hit exactly as often as it is a line of the text if it contains the pattern, which is not empty, and never otherwise |
| `GrepOutput.MatchingReadsBack` | syscalls/ece391grep.c:40-51 | read back as lines, what is printed for a text is, in order, each matching line behind the file name and a colon |
| `GrepOutput.AllMatchingExactly` | syscalls/ece391grep.c:68-97 | a line is among what is printed for all files if and only if it is name, colon and a line that contains the pattern, of a file whose name starts with no dot, before the first empty name |
| `GrepOutput.LinesOfFlat` | syscalls/ece391ls.c:18-26 | strings without newlines that are printed with a newline each, as `ls` does, read back as the same strings |
| `GrepProgram.CleanScanExactly` | syscalls/ece391grep.c:20-60 | a text is searched right with both contents of that cell if and only if no matching line is longer than 1024 bytes or lies across the cut |
| `GrepProgram.CleanFilesAreFound` | syscalls/ece391grep.c:84-94 | where all files are clean the whole output is all matching lines in order |
| `GrepProgram.SearchNext` | syscalls/ece391grep.c:84-94 | one turn: one entry further, or the end with everything printed |
| `GrepProgram.SearchFile` | syscalls/ece391grep.c:92-93 | searching a file leaves the open directory, its cursor and the free slots as they were |
| `GrepProgram.NextName` | syscalls/ece391grep.c:84-91 | the next name of the directory, and the shared cursor moved by one |
| `GrepProgram.OpenedText` | syscalls/ece391grep.c:92-93 | the name of an entry opens the first entry with that name, and fails only for lack of a slot |
| `Console.PutcShowsLog` | student-distrib/lib.c:184-240 | `putc` on the 25 rows is `putc` on the unbounded log of which they are the last rows: wrap, scroll and newline included |
| `Console.PutsShowsLog` | student-distrib/terminal.c:85-99 | every run of writes on the screen is the same run on the log |
| `Console.EraseShowsLog` | student-distrib/lib.c:253-279 | erasing on the screen is erasing on the log, including that at the top left corner nothing happens |
| `Console.ColumnOf` | student-distrib/lib.c:184-240 | the cursor column is the position in the log modulo 80 |
| `Console.ScrollShowsGrown` | student-distrib/lib.c:205-232 | a scroll is a new blank row of the log |
| `Console.MemMove` | student-distrib/lib.c:504-522 | the block arrives unchanged and nothing else changes, for every overlap |
| `Console.CopyForwards` | student-distrib/lib.c:504-522 | copying upwards is right when the destination is not above the source |
| `Console.CopyBackwards` | student-distrib/lib.c:504-522 | copying downwards is right when the destination is above the source |
| `Console.ClearRow` | student-distrib/lib.c:214-232 | one row becomes blank, in the normal attribute, from the given column on |
| `Console.Scroll` | student-distrib/lib.c:205-232 | rows 1 to 24 move up and a blank row comes in |
| `Console.Putc` | student-distrib/lib.c:184-240 | page and cursor in place become what the step specifies |
| `Console.Erase` | student-distrib/lib.c:253-279 | page and cursor in place become what the erase step specifies |
| `Console.Write` | student-distrib/terminal.c:85-99 | one `putc` per byte, and the count returned is the length |
| `WrappedText.ScreenShowsEndOfText` | student-distrib/lib.c:184-240 | after any bytes written on a cleared screen, the 25 rows are the last 25 rows of the text wrapped at 80 columns, blank below, every attribute 7, and the cursor is behind the last character |
| `WrappedText.LogIsWrap` | student-distrib/lib.c:184-240 | the log is the wrapped text, row by row |
| `WrappedText.TypeThenErase` | student-distrib/lib.c:253-279 | typing up to 24 rows of characters and erasing as many brings the cursor back to its place in the text and blanks the cells, wraps and scrolls included |
| `WrappedText.TypingFillsCells` | student-distrib/lib.c:184-240 | typing writes consecutive cells and adds blank rows as needed |
| `WrappedText.ErasingClearsCells` | student-distrib/lib.c:253-279 | erasing walks back over consecutive cells and blanks them |
| `Keyboard.TypedKeysArePrintable` | student-distrib/keyboard.c:147-182 | every key that reaches the tables and is typed has a printable character there, under every shift and caps lock state |
| `Keyboard.LayoutsArePrintable` | student-distrib/keyboard.c:159-169 | all four tables hold a printable character for every key that is typed |
| `KeyMaps.LayoutIsTable` | student-distrib/keyboard.c:41-71 | cell by cell, the layouts are the four tables of 59 characters written out |
| `KeyMaps.KeyCharIsTable` | student-distrib/keyboard.c:159-169 | a key stands for the cell of its scan code in the table for the state of shift and caps lock |
| `KeyMaps.CapitalsExactly` | student-distrib/keyboard.c:159-169 | a letter is a capital if and only if shift differs from caps lock, and caps lock changes exactly the letters |
| `KeyMaps.LetterKeys` | student-distrib/keyboard.c:41-71 | the letter keys have the same letter in all four tables |
| `KeyMaps.OtherKeys` | student-distrib/keyboard.c:41-71 | the other keys stand for no letters, and caps lock does not change them |
| `KeyMaps.EveryCharacterHasKey` | student-distrib/keyboard.c:41-71 | every character from 0x20 to 0x7E can be typed, with caps lock and without |
| `KeyMaps.TypesExactly` | student-distrib/keyboard.c:147-183 | a scan code types a character if and only if there is room, its table cell is that character and not NUL, and it is not the keypad star |
| `KeyMaps.ActsExactly` | student-distrib/keyboard.c:184-244 | the scan codes of backspace, tab, enter and the three terminal keys, the last only with alt, and no others have those actions |
| `KeyMaps.FlagsExactly` | student-distrib/keyboard.c:136-146 | over every run of scan codes shift, control and alt are on if and only if one of their keys was pressed and not released since, and caps lock is the parity of its presses |
| `Terminals.StepIsLocal` | student-distrib/sched.c:199-245 | an event, keys resolved to what they do, changes only the terminal on screen, in the way it would without the others, and a switch changes none; `Consoles` resolves the keys |
| `Terminals.SwitchKeepsTerminals` | student-distrib/sched.c:199-245 | a switch keeps page, cursor, keyboard buffer and index of all three terminals |
| `Terminals.StepKeepsValid` | student-distrib/sched.c:78-110 | no tick, switch, key, output or read parts the running terminal from the one on screen |
| `Terminals.SameAlone` | student-distrib/sched.c:95-110 | an event on the terminal on screen does what it would do if that terminal were alone |
| `Terminals.OthersUntouched` | student-distrib/lib.c:194-195 | the saved terminals stay as they are |
| `Terminals.WriteIsPuts` | student-distrib/lib.c:234-238 | output of the running terminal appears on the screen it is on |
| `TerminalRuns.ComingBackRestores` | student-distrib/sched.c:199-245 | through every run of resolved events in which a terminal is on screen only to be left, it is found again as it was left |
| `TerminalRuns.OwnHistory` | student-distrib/sched.c:199-245 | over every run of resolved events a terminal is what the events that happened while it was on screen make of it |
| `TerminalRuns.KeysStayInBounds` | student-distrib/keyboard.c:173-215 | with an index not ahead of the count no sequence of characters, tabs and backspaces leaves the buffer |
| `TerminalRuns.EditingStaysInBoundsExactly` | student-distrib/keyboard.c:173-215 | whatever characters, tabs and backspaces are pressed, all stores stay inside the keyboard buffer if and only if the index is not ahead of the shared count |
| `TerminalRuns.EditStep` | student-distrib/keyboard.c:147-226 | each key edits the line as a stack, with index and count its length and everything behind it NUL or newline |
| `TerminalRuns.SessionKeepsEditing` | student-distrib/keyboard.c:147-226 | through every session of keys the buffer holds the edited line |
| `TerminalRuns.SessionStaysInBounds` | student-distrib/keyboard.c:147-226 | no key of a session stores outside the buffer |
| `TerminalRuns.LastCellSurvivesExactly` | student-distrib/keyboard.c:173-181 | a NUL is left in the last cell after a key if and only if that key is not the 127th character |
| `TerminalRuns.ReadFindsLine` | student-distrib/terminal.c:51-53 | after enter the buffer holds the line and then newlines only up to its first NUL |
| `TerminalRuns.ReadReturnsLine` | student-distrib/terminal.c:51-65 | while there is a NUL in the buffer, a read returns the first bytes of the line followed by newlines, as many as asked for or up to that NUL, and never less of the line than asked for |
| `TerminalRuns.ReadStartsSession` | student-distrib/terminal.c:65-71 | after the read the next session starts with an empty line |
| `TerminalRuns.BackspacesUndoTyping` | student-distrib/keyboard.c:185-194 | typing characters and as many backspaces brings back the line, the index and the place of the cursor in the text, even when rows wrapped or the screen scrolled |
| `Consoles.KeysActAsOwnExactly` | student-distrib/keyboard.c:147-148 | every scan code does what the line on screen alone would decide if and only if the shared count and that line agree on whether there is room |
| `Consoles.InputRefinesExactly` | student-distrib/keyboard.c:147-247 | for every scan code the machine does what three independent consoles would, and stays in the buffer, if and only if the shared count agrees with the line on screen |
| `Consoles.InputRefines` | student-distrib/keyboard.c:107-247 | one scan code, output, tick or read on the machine is the same on the three consoles when the count agrees |
| `Consoles.RunRefines` | student-distrib/sched.c:199-245 | over every run of scan codes, output, ticks and reads in which the count agrees at each key, the machine is three consoles without a shared count |
| `Consoles.InStepIsKeptExactly` | student-distrib/keyboard.c:147-226 | index and count stay equal through an input if and only if no line is left for one of another length and none is read before it is entered |
| `Consoles.TidyRunIsIndependent` | student-distrib/sched.c:199-245 | every run in which lines are entered before they are left or read never leaves the buffer and is the run of three consoles |
| `Consoles.CountIsIdle` | student-distrib/keyboard.c:147-226 | what a resolved event does to a console does not depend on the count |
| `Driver.Machinery.Putc` | student-distrib/lib.c:184-240 | the character goes to the screen for a key or the terminal on screen, to the back page otherwise |
| `Driver.Machinery.RmC` | student-distrib/lib.c:253-279 | the page in place becomes what the erase step specifies |
| `Driver.Machinery.TerminalWrite` | student-distrib/terminal.c:85-99 | all bytes are written to the page of the running terminal |
| `Driver.Machinery.MemCpy` | student-distrib/lib.c:458-495 | the destination becomes the source |
| `Driver.Machinery.constructor` | student-distrib/sched.c:132-162 | over distinct buffers and zeroed terminals the machine is valid and every line is empty |
| `Driver.Machinery.SwapPages` | student-distrib/sched.c:202-234 | the page on screen is copied to its back page and the other terminal's back page to the screen, and no other page changes |
| `Driver.Machinery.SwapLines` | student-distrib/sched.c:235-238 | the keyboard buffers are exchanged likewise and the index is saved |
| `Driver.Machinery.SwitchTerminalKeypress` | student-distrib/sched.c:199-245 | pages, buffers, cursors and indices in place become what the switch step specifies |
| `Driver.Machinery.PitTick` | student-distrib/sched.c:95-110 | a tick only chooses the page of the running terminal |
| `Driver.Machinery.TypeKey` | student-distrib/keyboard.c:173-181 | the typed character enters buffer and screen as the step specifies |
| `Driver.Machinery.BackspaceKey` | student-distrib/keyboard.c:185-194 | the last character leaves buffer and screen |
| `Driver.Machinery.TabKey` | student-distrib/keyboard.c:208-215 | a space is typed; it does not end the line with a newline |
| `Driver.Machinery.EnterKey` | student-distrib/keyboard.c:219-226 | the newline is put on the screen, the line is marked complete, and index and count restart; the screen then shows the log with that newline (`Echo.EnterEchoes`) |
| `Driver.Machinery.UpdateFlags` | student-distrib/keyboard.c:137-146 | the four modifier flags follow presses and releases |
| `Driver.Machinery.KeyboardHandler` | student-distrib/keyboard.c:107-247 | every scan code but F11 and Ctrl+L changes the machine as its action specifies; which action that is say `KeyMaps.TypesExactly` and `KeyMaps.ActsExactly`, and what it echoes says `Echo.RunShowsBook` |
| `Echo.EnterEchoes` | student-distrib/keyboard.c:219-226 | if the screen shows a log, after enter it shows the log with a newline put to it |
| `Echo.TabEchoes` | student-distrib/keyboard.c:208-215 | after a tab it shows the log with a space put to it if the line has room, and the same log otherwise |
| `Echo.TypeEchoes` | student-distrib/keyboard.c:173-181 | after a typed character it shows the log with the character put to it |
| `Echo.BackspaceEchoes` | student-distrib/lib.c:253-279 | after a backspace it shows the log with one character erased if and only if the line is not empty and its first cell holds neither newline nor NUL |
| `Echo.KeyShowsBook` | student-distrib/keyboard.c:147-244 | every key changes the sheet of the terminal on screen alone, as the sheet by itself says, and a switch only turns the page |
| `Echo.CallShowsBook` | student-distrib/terminal.c:43-99 | output, a read and a tick change the sheet of the terminal on screen alone |
| `Echo.RunShowsBook` | student-distrib/keyboard.c:107-247 | after every run of scan codes, output, reads and ticks that stays in the keyboard buffer, each terminal shows the log of what its own keys echoed and erased and its program wrote, and its buffer begins with its own line |
| `Echo.ClearedShowsBook` | student-distrib/lib.c:184-240 | three cleared terminals with empty buffers show an empty book |
| `Echo.BackgroundWrite` | student-distrib/lib.c:184-240 | output of a terminal in the background goes to its back page only |
| `Echo.TickChoosesPage` | student-distrib/sched.c:43-110 | a tick saves the cursor, and afterwards output reaches the screen if and only if the running terminal is the one on it |
| `Driver.Machinery.CountLine` | student-distrib/terminal.c:51-53 | the place of the first NUL in the buffer |
| `Driver.Machinery.TerminalRead` | student-distrib/terminal.c:43-72 | the machine and the caller's buffer after a read; one byte more than the count returned is copied |
| `Blinkers.TicksInPhase` | fish/blink.S:60-90 | the closed form for all 16-bit lengths: after n ticks a blinker is at n modulo its period, on for the first part and off for the rest, with the countdown that is left; lengths 0 and above 32768 last one tick |
| `Blinkers.AddedKeepsTime` | fish/blink.S:105-184 | from its add on, through every run of adds, removes, syncs and ticks that spares it, a blinker keeps that time |
| `Blinkers.RunTicks` | fish/blink.S:49-99 | over a run that spares it a blinker has ticked exactly once per tick |
| `Blinkers.StepKeepsValidExactly` | fish/blink.S:105-300 | a command with 16-bit arguments or a tick keeps the list exact if and only if it is not an accepted add at location 0 |
| `Blinkers.StepKeepsValid` | fish/blink.S:105-300 | every tick and every command that names no location 0 for an add keeps the list exact: the slots with a location, each once |
| `Blinkers.AddKeepsValidExactly` | fish/blink.S:131-162 | an accepted add keeps the list exact if and only if its location is not 0 |
| `Blinkers.RemoveKeepsValid` | fish/blink.S:187-237 | a remove keeps the list exact |
| `Blinkers.PoolIsConserved` | fish/fish.c:160-175 | list length and free slots add up to 2000 in every reachable state |
| `Blinkers.AddFailsExactly` | fish/blink.S:131-145 | an add is refused, without any change, if and only if the location is off the screen or all slots are in use |
| `Blinkers.AddThenRemove` | fish/blink.S:105-237 | a new blinker is found at once, and removing it brings back list and pool up to that cleared slot |
| `Blinkers.Find` | fish/blink.S:351-379 | the newest blinker at a location, or the end of the list when there is none |
| `Blinkers.FreeSlot` | fish/fish.c:160-170 | the first slot without a location, all slots before it taken |
| `Blinkers.SyncedStayTogether` | fish/blink.S:240-300 | two synced blinkers have equal status and countdown after every run that spares both |
| `Blinkers.AddKeepsApartExactly` | fish/blink.S:131-162 | locations stay distinct through an accepted add if and only if its location was free |
| `Blinkers.SyncKeepsDisplayedExactly` | fish/blink.S:277-285 | after a sync the screen still shows every status if and only if the off character it pokes is what belongs there, because the conditional move never happens |
| `Blinkers.RunKeepsDisplayed` | fish/blink.S:49-99 | through every run without a sync whose adds go to free places, the screen shows the character of every status |
| `BlinkEffects.RemoveFailsExactly` | fish/blink.S:187-237 | a remove is refused, without any change, if and only if no listed blinker is at the location |
| `BlinkEffects.RemoveTakesNewest` | fish/blink.S:187-237 | otherwise the newest one there leaves the list and its slot becomes free; every other slot and all of video memory stay as they were |
| `BlinkEffects.SyncFailsExactly` | fish/blink.S:240-300 | a sync is refused, without any change, if and only if one of the two locations has no listed blinker |
| `BlinkEffects.SyncCopiesRhythm` | fish/blink.S:240-300 | otherwise the newest one at the second location takes over the rhythm of the newest one at the first, keeps its place and characters and shows its off character; every other slot stays as it was |
| `BlinkEffects.OtherCellsStay` | fish/blink.S:43-99 | no command and no tick writes to a cell of video memory that is not the character cell of a listed or just added blinker |
| `BlinkDriver.ZeroLocationLoops` | fish/blink.S:131-162 | two adds at location 0 link a slot to itself, so that no list describes the links any more |
| `BlinkDriver.Machine.Malloc` | fish/fish.c:160-170 | the first free slot of the pool, or 2000 |
| `BlinkDriver.Machine.FindHelper` | fish/blink.S:351-379 | the pointer to the newest blinker at the location |
| `BlinkDriver.Machine.Add` | fish/blink.S:105-184 | links, pool and video memory become what the add specifies, and the list stays exact unless an accepted location is 0 |
| `BlinkDriver.Machine.FindPrevious` | fish/blink.S:206-212 | the search ends at the link that leads to the target |
| `BlinkDriver.Machine.Remove` | fish/blink.S:187-237 | the newest match is bridged and its slot cleared; the rest of the list is unchanged |
| `BlinkDriver.Machine.Sync` | fish/blink.S:240-300 | lengths, countdown and status are copied to the second blinker, which then shows its off character |
| `BlinkDriver.Machine.IoctlFind` | fish/blink.S:302-349 | a copy of the newest blinker at the location, or -1 exactly when the list has none |
| `BlinkDriver.Machine.Tasklet` | fish/blink.S:49-99 | every node of the list ticks once, and the links stay |
| `Frames.AddFrames` | fish/fish.c:98-147 | the requests are exactly one per cell where either text shows something, in reading order, with the characters of both texts; it terminates for all texts |
| `Frames.ReadChar` | fish/fish.c:102-116 | one read gives the character of the cell, or a line end when the text has none there |
| `Frames.PlacesIncrease` | fish/fish.c:98-147 | rows and columns increase strictly along a text, so that no cell is met twice |
| `Animation.FramesAlternate` | fish/fish.c:23-44 | on an empty field, texts that fit the screen alternate in all their cells together: after n ticks each shows the first text if n modulo 30 is below 15 and the second otherwise |
| `Animation.LitCellsAlternate` | fish/fish.c:78-140 | a cell where either text has a character other than a space shows what the text of the phase has there, or a blank behind its line end |
| `Animation.DarkCellsStay` | fish/fish.c:118-129 | every other byte of video memory stays as it was through all adds and ticks |
| `Animation.AddsAreCarried` | fish/fish.c:122-127 | requests with places of their own on the screen are all accepted, all listed and all shown |
| `Animation.CarriedBlink` | fish/blink.S:60-90 | after n ticks the screen shows each request's character for that part of its period |
| `Paging.WalkIsMemoryMap` | student-distrib/memory.c:17-137 | for each of the 2^32 addresses the page walk gives exactly the intended memory map: address, user bit and write bit, or a fault |
| `Paging.SwitchesKeepMemoryMap` | student-distrib/memory.c:201-206 | after any sequence of `update_user_addr` the map is that of the last process |
| `Paging.UserReachesExactly` | student-distrib/memory.c:39-58 | a physical byte is reachable from user mode if and only if it lies in the frame of the process or in one of the four text pages |
| `Paging.FramesAreDisjointExactly` | student-distrib/memory.c:201-206 | two processes share other memory if and only if their numbers agree modulo 1024 |
| `Paging.KernelIsSafeExactly` | student-distrib/memory.c:29-38 | the kernel page is out of user reach if and only if the process number is not 1023 modulo 1024 |
| `Paging.UpdateServes` | student-distrib/memory.c:201-206 | one switch keeps all flags and every other entry |
| `Paging.Reloaded` | student-distrib/memory.c:203-204 | keeping 20 bits keeps all flags, and nothing but the frame is above them |
| `Paging.VidMapShowsTerminal` | student-distrib/sys_calls.c:436-455 | `sys_vidmap` refuses exactly the pointers outside 0x8000000 to 0x8400000, and the pointer it stores leads user code to the backing page of the terminal on screen, byte for byte |
| `Paging.VidMapStoreFaultsExactly` | student-distrib/sys_calls.c:438-438 | the four bytes it stores are all mapped if and only if the accepted pointer is at most 0x83FFFFC |
| `Paging.Mmu.FillDirectoryEntry` | student-distrib/memory.c:20-63 | the bits set one after the other give these entries |
| `Paging.Mmu.FillDirectory` | student-distrib/memory.c:20-63 | the whole directory |
| `Paging.Mmu.FillTable` | student-distrib/memory.c:66-137 | only the four text pages are present in a table, each at its own address |
| `Paging.Mmu.PagingInit` | student-distrib/memory.c:17-137 | the built tables serve process 0 |
| `Paging.Mmu.UpdateUserAddr` | student-distrib/memory.c:201-206 | the directory in place changes in the user entry only |
| `Numbers.NumeralIsExact` | student-distrib/lib.c:307-337 | a text is what is written for a number if and only if it has digits only, no zero in front of others, and evaluates to the number |
| `Numbers.NumeralLength` | student-distrib/lib.c:307-337 | it has at most n digits if and only if the number is below the n-th power of the radix |
| `Numbers.WordLengths` | student-distrib/lib.c:94-126 | 32-bit values need at most 8 hexadecimal, 10 decimal and 32 digits in any radix, so the buffers of `printf` suffice |
| `Numbers.StrRev` | student-distrib/lib.c:343-356 | the string is reversed in place and no other byte changes |
| `Numbers.Itoa` | syscalls/ece391support.c:49-81 | the terminated numeral, for radix 2 to 36, and no byte beyond it |
| `Numbers.WriteDigits` | student-distrib/lib.c:320-330 | the loop leaves the digits in the buffer, last one first, and touches nothing else |
| `Numbers.OneDigit` | student-distrib/lib.c:325-330 | one turn moves one digit from the number to the reversed text |
| `Numbers.Puts` | student-distrib/lib.c:171-178 | the bytes of the string in order |
| `Numbers.StrLen` | student-distrib/lib.c:362-367 | the place of the first NUL |
| `Numbers.ConvertHex` | student-distrib/lib.c:92-111 | `%x` prints the digits of the value and `%#x` always exactly eight of the same value |
| `Numbers.ConvertUnsigned` | student-distrib/lib.c:114-121 | `%u` prints the decimal numeral |
| `Numbers.ConvertSigned` | student-distrib/lib.c:124-137 | `%d` prints a text that reads back as the value for every 32-bit integer, the smallest included |
| `Numbers.ZerosInFront` | student-distrib/lib.c:98-108 | padding with zeros keeps the value |
| `Arguments.ArgumentsSurvive` | syscalls/ece391emulate.c:132-157 | for every command, the arguments that a program gets back as one text cut into the same words again |
| `Arguments.JoinThenSplit` | syscalls/ece391emulate.c:132-157 | joining words with single spaces and cutting the text gives back the words |
| `Arguments.WordsKeepEveryLetter` | syscalls/ece391emulate.c:88-98 | on one line the words in order are the text without its spaces: nothing is lost, added or moved |
| `Arguments.WordsArePlain` | syscalls/ece391emulate.c:88-98 | words are never empty, hold no separator, and are at most one for every two characters |
| `Arguments.WordBehind` | syscalls/ece391emulate.c:88-98 | a word added behind a space is one word more at the end |
| `Arguments.KernelTakesTwoWords` | student-distrib/sys_calls.c:158-202 | the kernel's own parser takes the first two of the same words, and refuses exactly when one of them is longer than 32 characters |
| `CommandWords.ArgumentsAreWords` | syscalls/ece391emulate.c:76-100 | the arguments of a one-line command are its words, the first one behind `./`; with a space in front the path is `./` alone and all words follow |
| `CommandWords.NewlineExactly` | syscalls/ece391emulate.c:88-98 | a newline right behind a word ends it like a space, and one behind a space or at the start ends the whole command |
| `CommandWords.WordsBehind` | syscalls/ece391emulate.c:76-98 | the words of a text are the same behind any other text |
| `Emulator.Tokenize` | syscalls/ece391emulate.c:76-100 | the in-place cut yields pointers to exactly the path and the words, ended by NULL within 1024 slots, for every command of at most 1023 bytes, newlines included, and refuses the others |
| `Emulator.ParseArguments` | syscalls/ece391emulate.c:88-98 | the loop stores a pointer to every remaining word |
| `Emulator.TakeArgument` | syscalls/ece391emulate.c:94-97 | one word is ended in place and none before it is spoilt |
| `Emulator.FewArguments` | syscalls/ece391emulate.c:76-100 | the pointers of every accepted command fit into their array |
| `Emulator.GetArgs` | syscalls/ece391emulate.c:132-157 | success if and only if words, single spaces and terminator fit; the text is then exactly that; and one byte behind the buffer is overwritten if and only if some first words fill it completely |
| `Emulator.StrCpy` | syscalls/ece391support.c:14-17 | the string and its terminator arrive and nothing else changes |
| `Counterexamples.ReadPastTheEndDelivers` | student-distrib/FileSystem.c:80-89 | a read at offset 2 of a file of one byte delivers a byte |
| `Counterexamples.NegativeReadMovesBack` | student-distrib/sys_calls.c:380-381 | a reachable process whose cursor is 2^32 - 1 after a read of -1 bytes, for every regular file |
| `Counterexamples.SecondReaderMissesEntry` | student-distrib/FileSystem.c:231-254 | a run in which the second of two open directories misses the first entry |
| `Counterexamples.EmptyNameEndsListing` | syscalls/ece391ls.c:18-26 | a directory of two entries that is listed as empty |
| `Counterexamples.LongLineIsSplit` | syscalls/ece391grep.c:20-60 | a matching line of 1025 bytes is not found as it is |
| `Counterexamples.StaleNewlineCutsLine` | syscalls/ece391grep.c:29-39 | a matching line of 1024 bytes is cut when the last cell held a newline |
| `Counterexamples.FullCountBlocksEveryTerminal` | student-distrib/keyboard.c:147-148 | after a full line and a switch to an empty terminal no key types anything |
| `Counterexamples.EnterElsewhereOverruns` | student-distrib/keyboard.c:219-226 | a character, a switch, an enter and the switch back leave index 1 and count 0, from where typing leaves the buffer |
| `Counterexamples.FullLineHasNoNul` | student-distrib/keyboard.c:173-181 | typing 127 characters on an empty line leaves no NUL in the buffer |
| `Counterexamples.LocationZeroBreaksList` | fish/blink.S:131-162 | the first add at location 0 to an empty pool is accepted and spoils the list |
| `Counterexamples.SyncShowsWrongCharacter` | fish/blink.S:277-285 | two blinkers added to an empty field are shown rightly and wrongly after a sync |
| `Counterexamples.VidMapLeavesUserPage` | student-distrib/sys_calls.c:438-438 | an accepted pointer through which the store is not mapped |
| `Counterexamples.ArgumentSpills` | syscalls/ece391emulate.c:141-149 | an argument that fills its buffer |

## Left out

- Interrupt and exception tables, segment and task setup, multiboot printing: constants without an invariant.
- Port I/O of interrupt controller, timer, real-time clock and cursor registers. Reads of the clock device return 0
  at once here; in the kernel they wait for a tick first.
- The stack switches of execute, halt and the timer, and the shells that the timer starts at boot. Runs of the
  terminals start after boot, with the running terminal on screen.
- The parent of a process: the kernel keeps one previous process number for all, which even a failed execute
  overwrites, so halt takes the process that runs next as a parameter.
- The argument string that `sys_execute` stores in the process table, `sys_getargs`, and the NUL that it writes behind
  a program name of exactly 32 characters.
- Signals, `sys_set_handler` and `sys_sigreturn`: stubs.
- `clear`, Ctrl+L, `clear_out_kb` and `change_vid_mem`: they depend on a page pointer that early returns of `putc` and
  `rm_c` leave behind.
- The F11 key: its scan code lies past the end of the key tables.
- Addresses inside the file system image are unbounded integers, so a block number that makes a pointer wrap at 4 GB
  is not modelled.
- File types other than 0, 1 and 2, for which `sys_open` would leave the old operations in a slot, and directories of
  more than 63 entries, which the boot block has no room for.
- The remaining memory and string routines of `lib.c`, the format loop of `printf` around its conversions, and
  radixes outside 2 to 36.
- `fork`, `execv` and `wait` in `ece391_execute`: calls into the host.
- Processor modes and caches of the page walk: the write bit is that of user mode, and every address is translated
  anew.
- The demonstration and test programs, and the parts of the user library that only pass a call on.
- Programs.Ls: takes the entry named "." to be a directory, as it is on every image the program is made for.
- Programs.Cat: takes the file name as a parameter, because arguments are modelled separately; writing to the terminal
  does not fail.
- Kernel.Kernel.SysRead: does not cover descriptor 0, whose bytes come from `terminal_read`.
- Kernel.Kernel.SysExecute: covers the process table up to success or failure; the stored argument string, the switch
  of the user page (`Paging.Mmu.UpdateUserAddr`) and the number of the previous process are not part of it.
- Kernel.Kernel.Release: closes and frees the process; the shell that is started again for processes 1 and 2 and the
  process counts of the terminals are not part of it.
- Driver.Machinery.KeyboardHandler: covers every scan code but F11 and Ctrl+L, and no key that would store outside the
  keyboard buffer; `TerminalRuns.EditingStaysInBoundsExactly` says which these are.
- TerminalRuns.ComingBackRestores: takes keys as what they do; `Consoles.RunRefines` takes them as scan codes.
- Terminals.StepIsLocal: takes keys as what they do; `Consoles.InputRefinesExactly` takes them as scan codes.
- Grep.DoOneFile: holds for files without NUL bytes that are not directories, because lines are printed as C strings
  and a directory would share the cursor of the caller.
- GrepProgram.GrepAll: holds for files without NUL bytes whose names do not lead to directories; the pattern is a
  parameter, and so is the byte that the array of each file has in the cell that is never initialised.
- Driver.Machinery.TerminalRead: relies on a NUL in the keyboard buffer, without which the code counts past its end.
- Emulator.GetArgs: gives the buffer one byte more than `nbytes`, because the code may write there.
- Frames.AddFrames: takes the two texts as parameters; opening and closing the files is left out, and so is a read
  that fails, on which the program would not end.
- TerminalRuns.BackspacesUndoTyping: the typed cells are blank afterwards, whatever was in them before.
- Animation.FramesAlternate: for texts whose visible cells fit on the screen; others share or miss cells.
- WrittenFiles.ExecutableExactly: for files of at least 28 bytes; the code looks at the block itself, so for shorter
  ones it also sees what lies behind their end (`Kernel.IsExecutable`).
- GrepOutput.AllMatchingExactly: for directories whose names contain no newline, since others cannot be told from line
  ends; the order of the lines is that of `GrepOutput.MatchingReadsBack` within a file and of the directory between files.
