# Illinix: a verified model of the kernel core

Illinix is a small x86 kernel with three terminals, six process slots, a
round-robin timer, a read-only file system, a text console and 32-bit paging.
This project models those five parts in Dafny and proves what the C code relies
on but nowhere says. `dafny verify dfyconfig.toml` checks everything.

| file | what it models |
|---|---|
| `Slots.dfy` | one value for `phys_addr_available`, `phys_mem_idx`, the PCBs, `tss`, CR3; each system call and the timer tick as a step |
| `SlotInvariant.dfy` | the invariant, and for every step the exact condition under which it is kept |
| `SlotRuns.dfy` | theorems over all runs: boot, round robin, preemption, last-in-first-out returns, slot partition |
| `Preemption.dfy` | from power-on: what a tick saves and where a terminal resumes |
| `StepEffects.dfy` | single steps by their outward effects: descriptors, new and ended processes, what stays |
| `Kernel.dfy` | the same steps on the arrays, loop by loop, proved to carry out `Slots.dfy` |
| `Paging.dfy` | directories and tables as `page.c` builds them, and the page walk |
| `AddressSpaces.dfy` | slots and page tables together: what user addresses mean in every reachable state |
| `Common.dfy` | bytes, C strings, division |
| `FileSystem.dfy` | names, file contents, what `read_data` copies, one reply of `file_read`, directory listing, the executable check |
| `Drains.dfy` | what many `file_read` calls bring: alone, with a shared flag, with requests of varying size |
| `FileDriver.dfy` | `file_system.c` at work: search and copy loops and its globals |
| `SystemCalls.dfy` | `execute`, `open` and `read` across both sides, and a whole file read through them |
| `Console.dfy` | one terminal's characters and cursor, and the endless paper its screen is a window on |
| `ScreenRuns.dfy` | the display as one value, and what all runs of output, mouse, switches and vidmap writes keep |
| `Display.dfy` | video memory, the three backups and the mouse mark, updated in place; each method is a step of `ScreenRuns.dfy` |
| `Format.dfy`, `Arguments.dfy` | `itoa`, `strrev`, `printf` numbers; command parsing, `getargs` |
| `Keyboard.dfy` | line buffer, delivery and history |
| `TextBar.dfy` | `text_buf_build` into planar memory |

Slots are numbered 0..5. The kernel stack of slot `s` starts at
`8 MB - s * 8 KB`; its page directory is `pde_arr[s + 1]`, and CR3 is kept as
that index. A saved `(esp, ebp)` pair is an opaque `Frame`. The frames a step
finds in the registers, what an uninitialised stack buffer holds, packet bytes
and the bytes a program writes are parameters. The slot machine takes the
outcome of the file checks as a parameter; `SystemCalls.Execute` computes it.

## What holds, and where it stops holding

* **Slots.** From power-on, every run of allowed steps keeps three process
  stacks plus a free set; slots 0..2 are the bottom shells; `tss.esp0` and CR3
  are those of the running terminal's top process. A step from a good state
  leads to a good state *if and only if* it is allowed
  (`StepKeepsExactlyWhenAllowed`). What is not allowed: starting a program
  before all three shells run, a fourth tick while terminal 2 runs a program
  (`BootRace` follows what goes wrong), restarting a bottom shell whose file no
  longer loads, and `vidmap` while another terminal is on display. A first tick
  whose shell does not load is not even safe: it falls through and saves into
  the PCB of slot -1 (`GoodTickIsSafe`).
* **Preemption.** From power-on, boot ticks included, a terminal always resumes
  with the frame, directory and kernel stack of the tick that last took the
  processor from it (`ResumesWhereItWasPreempted`).
* **Exceptions.** `exception_flag` is one flag for all terminals and only
  `execute` on a command clears it (`execute(NULL)` returns first). A clean `halt` reports its own status *iff* no program
  anywhere has faulted since the last `execute` anywhere
  (`CleanHaltReportsItsStatus`); else it reports 256, to a grandparent
  (`FaultLeaksIntoParentsHalt`) or on another terminal (`FaultReachesNextTerminal`).
* **Callers.** When a child halts, its caller gets everything back but `vid_on`:
  the halt clears it, so a caller that uses vidmap is no longer refreshed
  (`HaltStopsRefresh`).
* **Screens.** `set_page` never clears entry 34 and nothing clears `pte_one`.
  Over every run, the process in a slot reaches the backup screen of a terminal
  *iff* some `vidmap` was made while that slot was on top of the displayed
  terminal and some `vidmap` while that terminal was on display
  (`ScreensReachedExactly`). So a later owner of the slot reaches it without
  calling (`ScreensOutliveTheirOwner`), and a `vidmap` made off display opens it
  to the other terminal's process (`OffDisplayOpensForTheOther`), stores the
  result in that one's memory (`VidmapStoresForCallerExactly`) and has the next
  tick save that one's directory for the caller (`OffDisplayVidmapSpoilsCaller`).
* **Files.** A drain with a constant chunk size delivers the file exactly, down
  to the bytes in the caller's buffer (`SystemCalls.ReadWhole`). With varying
  sizes it does so *iff* the request after the short read overruns the end too;
  else the rest arrives again (`VaryingDrainExactly`, `SmallerRequestRepeats`).
  The shared `last_round` loses the last partial chunk when another descriptor
  left it set, so the file is whole iff the chunk size divides it
  (`StaleFlagLosesTail`). When readers interleave, a reader's tail arrives once
  for every call from its short read on that finds the flag clear, up to the
  first that finds it set (`SharedDrainExactly`, `TwoReadersSpoilEachOther`).
  Empty files read as -1, not 0 (`EmptyFileReply`). A request for 0 bytes is
  answered with the length of the rest.
* **Reads outside the file.** A read from behind the end, or whose offset plus
  count wraps, stops inside the inode *iff* a bad block index comes before the
  inode ends, and then returns -1 (`OtherReadsFail`). In an inode whose 1023
  indices are all good, as in every inode of `filesys_img`, none does, and the
  walk runs on behind the inode (`FullInodeRunsOut`).
* **Directories.** `directory_index` is one global that neither open nor close
  resets: a reader gets all names *iff* it stands at 0 and no entry is nameless
  (`AllNamesExactly`), and one that gives up early costs the next what it has
  read (`EarlyStopCostsNext`).
* **Execute** starts a program *iff* a slot is free and the first entry with the
  name of the command's first word begins with 7f 45 4c 46, on a disk where that
  file is intact and has four bytes (`SystemCalls.Execute`). It ignores the
  result of the read before its magic test: on an empty or damaged file it tests
  stack contents. The outcome depends on the disk alone *iff* the readable bytes
  are not a proper beginning of the magic number (`MagicTestIgnoresStackExactly`).
* **Console.** A newline that meets a pending scroll is swallowed, one row of
  layout each time (`LayoutIsFaithfulExactly`, `FullScreenSwallowsNewline`).
  Background output never advances the row at column 79. A background process
  that writes exactly 128 bytes puts a newline on the displayed terminal
  (`BackgroundWriteStaysHome`).
* **getargs** stays inside the caller's buffer iff the argument is no longer
  than the buffer: the length test selects the unbounded copy for the short
  one. The test is unsigned, so a negative count writes gigabytes of NULs.
* **Keyboard.** Keys are conserved iff no Enter arrives at index 128
  (`KeysAreConserved`, `FullLineLosesEnter`). After characters and backspaces
  Enter delivers the line shown iff the line was never more than one character
  longer than it is now (`DeliveredIsShownExactly`).
* **Mouse.** The mark moves by the reported movement, a fifth across and a tenth
  up, but past the right edge it lands in column 78, not 79
  (`MouseFollowsPacket`).

The header comment of `file_read` promises 0 for every call and the one of
`itoa` a byte count; the code returns lengths and the buffer, and the model
follows the code. The comment over the copy loop of `execute` in
system_call_handler.c speaks of slot 0 only; the code treats slots 0..2 alike.

## Model

| member | source | states |
|---|---|---|
| Slots.FirstFree | system_call_handler.c:289-299 | the slot the claiming loop stops at is unused and every lower one is used |
| Slots.FirstClosed | system_call_handler.c:502-510 | the descriptor `open` picks is free and every lower one is taken |
| SlotInvariant.GoodTickIsSafe | pit.c:73-165 | in every good state each `phys_mem_idx[i-1]` of a tick is in bounds and no PCB of slot -1 is written, exactly when it is not a first tick whose shell fails to load |
| SlotInvariant.SlotNumberTellsBottom | system_call_handler.c:127-174 | `curr_halt > 2` and `curr_halt < 3` decide exactly whether the halted process is above the bottom shell |
| SlotInvariant.FirstFreeInGood | system_call_handler.c:289-299 | during boot the next free slot is the next shell's own; afterwards programs get slots 3..5 only |
| SlotInvariant.PushDistinct | system_call_handler.c:302-307 | pushing an unused slot keeps every slot in at most one list position |
| SlotInvariant.LaunchKeeps | system_call_handler.c:302-386 | a launched program is linked to the stack and directory of its caller, no other terminal's saved context changes |
| SlotInvariant.PopWellFormed | system_call_handler.c:152-153 | halt frees the top slot and no other |
| SlotInvariant.PopKeeps | system_call_handler.c:137-164 | halt returns esp0, ss0 and CR3 to the process below and disturbs no other process |
| SlotInvariant.SaveKeeps | pit.c:148-155 | saving the preempted process leaves every terminal that was resumable resumable |
| SlotInvariant.LoadKeeps | pit.c:160-180 | loading a saved context makes esp0 and CR3 those of that terminal's top process |
| SlotInvariant.TickKeeps | pit.c:63-182 | a tick keeps the invariant exactly when its shell loads, or on the fourth tick exactly when terminal 2 runs its shell only |
| SlotInvariant.BootTickKeeps | pit.c:85-132 | the boot branch starts the next shell or, on terminal 2, ends the boot with terminal 0 running |
| SlotInvariant.ExecuteKeeps | system_call_handler.c:220-386 | execute keeps the invariant exactly when it fails or all three shells run |
| SlotInvariant.RestartClaimsSameSlot | system_call_handler.c:152-174 | a bottom shell that halts frees the slot its restart then claims, on the same terminal |
| SlotInvariant.HaltKeeps | system_call_handler.c:107-206 | halt keeps the invariant exactly when a process is left below or the shell loads |
| SlotRuns.OffDisplayVidmapSpoilsCaller | system_call_handler.c:69-75 | after a vidmap off display the next tick saves the displayed process's directory for the caller |
| SlotInvariant.VidmapKeeps | system_call_handler.c:62-79 | vidmap keeps CR3 right exactly when the displayed terminal is the running one |
| SlotInvariant.StepKeepsExactlyWhenAllowed | system_call_handler.c:107-386 | for every kind of step the invariant survives if and only if a condition on the state before it holds |
| SlotRuns.FromPowerOn | pit.c:73-182 | from initialisation every run keeps the invariant; the fourth tick ends the boot; after k more ticks terminal k mod 3 runs |
| SlotRuns.RoundRobin | pit.c:158 | any run with n ticks moves the processor n terminals on, whatever else it contains |
| SlotRuns.SlotsPartition | system_call_handler.c:289-307 | three stacks and the free set partition the six slots; execute finds none exactly when three programs live in all terminals together |
| SlotRuns.StepWrites | system_call_handler.c:124-164 | a step writes only the PCB of the running top process or of a free slot |
| SlotRuns.RunOff | pit.c:157-180 | while a terminal does not run, its stack and all its PCBs stay untouched by any run |
| SlotRuns.PreemptedResumes | pit.c:145-180 | three ticks after a preemption the process resumes with exactly the frame, esp0 and CR3 saved for it |
| Preemption.TickSavesInterrupted | pit.c:91-155 | every tick, boot ticks included, leaves the interrupted frame, CR3 and esp0 in the PCB of the process it interrupts |
| Preemption.ContextIsOfLastPreemption | pit.c:91-180 | a terminal off the processor keeps the context of the tick that last preempted it, over any run |
| Preemption.ResumesWhereItWasPreempted | pit.c:114-180 | from power-on a terminal always resumes with the context of the tick that last preempted it |
| Preemption.FourthTickRestoresSecond | pit.c:114-128 | the fourth tick puts terminal 0's shell back on the frame of the second |
| StepEffects.OpenSucceedsExactly | system_call_handler.c:493-510 | open succeeds exactly when the name is found and a descriptor is free |
| StepEffects.OpenedByType | system_call_handler.c:513-538 | calls on the new descriptor go to the clock, the directory or the file by the entry's type; inode and position; other descriptors unchanged |
| StepEffects.CloseSucceedsExactly | system_call_handler.c:555-569 | close succeeds exactly on an open descriptor from 2 to 7, which is free afterwards; the others are unchanged |
| StepEffects.ProgramStarts | system_call_handler.c:311-405 | what a started program finds: keyboard and screen on 0 and 1, six free descriptors, its argument, its user stack; and where it returns |
| StepEffects.LaunchesExactly | system_call_handler.c:272-298 | execute starts a program exactly when the file loads and some slot is free |
| StepEffects.TickStartsShell | pit.c:73-111 | the same of the shells the first three ticks start, each on its terminal, without argument |
| StepEffects.HaltStartsShell | system_call_handler.c:166-174 | and of the shell that comes back on a bottom halt |
| StepEffects.HaltFreesDescriptors | system_call_handler.c:127-164 | a halted program leaves all descriptors of its slot free and no way back |
| StepEffects.KernelStacksApart | system_call_handler.c:311-386 | six kernel stacks of 8 KB one below the other under 8 MB, a PCB at the low end of each, and six different directories |
| StepEffects.QuietStepsLeaveProcesses | system_call_handler.c:220-570 | steps that start and end nothing leave stacks and registers alone, and of the PCBs change the caller's descriptors at most |
| StepEffects.VidOnAfterStep | system_call_handler.c:73-155 | vidmap sets vid_on of the displayed terminal, a halt clears the running one's, nothing else touches any |
| StepEffects.DisplayedAfterStep | keyboard.c:206 | only the terminal switch changes the terminal on display |
| SlotRuns.RunAbove | system_call_handler.c:311-363 | processes below a running program, and the program's own way back, survive any run that does not halt it |
| SlotRuns.HaltReturnsToCaller | system_call_handler.c:137-206 | any nesting of executes and halts returns last in first out to the caller's frame, stack, directory and descriptors |
| SlotRuns.HaltStopsRefresh | system_call_handler.c:155 | the one thing that does not come back: vid_on of the caller's terminal is clear after a child's halt |
| SlotRuns.ArgumentSurvives | system_call_handler.c:323-328 | the argument stored by execute is still in the PCB at any later time of the program's life |
| SlotRuns.CloseUndoesOpen | system_call_handler.c:484-570 | open hands out descriptors 2..7 only and close restores the whole state |
| SlotRuns.FlagAfterStep | system_call_handler.c:232 | which steps leave `exception_flag` set |
| SlotRuns.FlagAfterRun | system_call_handler.c:113-232 | over any run the flag is set exactly when some program has faulted, on whatever terminal, and nobody has called execute on a command since |
| SlotRuns.CleanHaltReportsItsStatus | system_call_handler.c:113-198 | a clean halt hands over its own status exactly when no fault is outstanding on any terminal |
| SlotRuns.FaultReachesNextTerminal | system_call_handler.c:113-198 | a fault on one terminal and one tick later a clean halt on the next reports 256 |
| SlotRuns.FaultLeaksIntoParentsHalt | system_call_handler.c:113-198 | and so does the clean halt of the faulting program's parent |
| SlotRuns.BootRace | pit.c:80-111 | a program on terminal 2 at the fourth tick leads to a second shell on terminal 1 that returns into terminal 0's directory |
| KernelState.Kernel.FindEnd | system_call_handler.c:118-120 | the scan for -1 finds the height of the stack |
| KernelState.Kernel.ClaimAndPush | system_call_handler.c:289-307 | both loops together push the first free slot, or change nothing |
| KernelState.Kernel.Execute | system_call_handler.c:226-416 | the arrays after execute on a command are those of the specified step |
| KernelState.Kernel.Halt | system_call_handler.c:107-209 | the arrays after halt, and the value handed to the parent |
| KernelState.Kernel.Tick | pit.c:63-182 | the arrays after a tick, all branches, the fall-through of a failed first execute included |
| KernelState.Kernel.Open | system_call_handler.c:484-538 | descriptor table and result of open, before the call through the jump table |
| KernelState.Kernel.Close | system_call_handler.c:552-570 | descriptor table and result of close |
| KernelState.Kernel.Dispatch | system_call_handler.c:428-475 | read and write go through the caller's own descriptor, or fail |
| KernelState.Kernel.Vidmap | system_call_handler.c:62-79 | the arrays after vidmap, and the address it stores |
| KernelState.Kernel.Perform | pit.c:63-182 | one event on the arrays is one step of the slot machine, and it keeps the invariant exactly when allowed |
| KernelState.Kernel.constructor | terminal.c:11-51 | the state terminal_init and PIT_init leave |
| Paging.UserRange | page.c:160 | the user range of a slot is its own 4 MB frame at the same offset |
| Paging.SlotsAreIsolated | page.c:160 | two slots never translate to the same byte of user memory |
| Paging.KernelIsIdentity | page.c:141-157 | the low 4 MB and the kernel page are identity mapped, supervisor only, in every built directory |
| Paging.UserReach | page.c:160-165 | user mode reaches its own frame and the three backup screens, nothing else |
| Paging.VidmapAddress | page.c:217-220 | through directory and table the vidmap address of a terminal is its backup screen exactly when both entries are present, and faults otherwise |
| Paging.ScreenEntries | page.c:160-220 | only vidmap writes the two entries that open the screens, and nothing clears them |
| Paging.SetPageKeeps | page.c:127-171 | building one directory completes it and leaves the others as they are |
| Paging.SetPageVideoKeeps | page.c:184-227 | so does vidmap, and its two entries are present afterwards |
| Paging.BitsByPlace | page.c:141-160 | present, user and large are bits 0, 2 and 7 of an entry |
| Paging.WalkByParts | page.c:141-220 | the page walk by directory index, table index and offset |
| Paging.OrIsSum | page.c:141 | or-ing flags into an aligned base is addition |
| Paging.PageTables.MapPageInit | page.c:72-116 | the tables after initialisation meet the invariant, with no slot directory built and no screen open |
| Paging.PageTables.SetPageFor | page.c:127-171 | the arrays after set_page as execute calls it |
| Paging.PageTables.SetPageVideoFor | page.c:184-227 | the arrays after set_page_1 as vidmap calls it, and the address returned |
| AddressSpaces.UserMemoryFromPowerOn | system_call_handler.c:366-368 | in every reachable state user addresses under CR3 are the running process's own frame, and no address of a live process's user range translates into it |
| AddressSpaces.UserReachFromPowerOn | page.c:141-165 | in every reachable state user mode reaches the running process's frame from the user range and the backup screens from the three vidmap pages, nothing else, and the kernel's 8 MB are identity mapped and closed to it |
| AddressSpaces.VidmapReachesBackup | system_call_handler.c:69-77 | with the caller on display, the address vidmap returns reaches that terminal's backup screen at every offset and CR3 stays |
| AddressSpaces.EnabledKeepsWellFormed | system_call_handler.c:107-386 | every step that has its callers leaves slots in range and in one list place each, so runs of such steps need no other condition |
| AddressSpaces.ScreensReachedExactly | page.c:160-220 | over every such run and for every built directory: its slot reaches the backup screen of a terminal exactly when some vidmap was made while that slot was on top of the displayed terminal and some while that terminal was on display |
| AddressSpaces.RunningReachesExactly | page.c:160-220 | from power-on over allowed runs this holds of the loaded directory |
| AddressSpaces.OffDisplayOpensForTheOther | system_call_handler.c:69-75 | a vidmap made off display opens the screen to the displayed terminal's process and not to the caller |
| AddressSpaces.ScreensOutliveTheirOwner | page.c:160-165 | a program launched in the slot of one that used vidmap reaches the screen without calling it |
| AddressSpaces.VidmapStoresForCallerExactly | system_call_handler.c:75-77 | the result is stored in the frame of the displayed terminal's top process, the caller's exactly when that terminal runs |
| AddressSpaces.RunMapped | system_call_handler.c:366-376 | every live process has a complete directory in every state of a run |
| FileSystem.Lookup | file_system.c:68-100 | the first entry whose clipped name matches, or none |
| FileSystem.ReadFailsExactly | file_system.c:169-209 | read_data returns -1 exactly for a bad inode, an empty file or a bad block index among the bytes wanted |
| FileSystem.ReadIsSlice | file_system.c:178-231 | what the block walk copies is the slice of the flat file, cut at its end |
| FileSystem.ContentByBlocks | file_system.c:206-215 | block b of a file lies whole and in order in the data block its inode names |
| FileSystem.FailedReadReply | file_system.c:292-309 | a failed read is answered with -1, the flag stays, the position goes back by one |
| FileSystem.EmptyFileReply | file_system.c:170-171 | an empty or missing file is answered with -1 |
| FileSystem.NotFoundExactly | file_system.c:68-120 | a command is not found exactly when no entry has its name, compared on 32 bytes |
| FileSystem.LoadableExactly | system_call_handler.c:278-287 | with four readable bytes the file loads exactly when they are 7f 45 4c 46 |
| FileSystem.LittleEndianBytes | system_call_handler.c:389-390 | the bytes of the entry point, lowest first |
| Drains.DrainIsWholeFile | file_system.c:274-310 | from a fresh open, reading any chunk size until the first 0 yields the file exactly |
| Drains.StaleFlagLosesTail | file_system.c:299-306 | with the shared flag left set the drain is whole exactly when the chunk size divides what is left |
| Drains.ExactFitLeavesFlagSet | file_system.c:299-306 | a drain leaves the shared flag set exactly when its last chunk fitted |
| Drains.VaryingDrainExactly | file_system.c:292-309 | with requests of any sizes the reader has the file exactly when the request after the short read overruns the end too, and otherwise which bytes arrive again |
| Drains.SmallerRequestRepeats | file_system.c:298-309 | a one-byte file read by 2, 1 and 1 bytes arrives twice |
| Drains.ConstantSizes | file_system.c:292-309 | requests of one size are the constant drain |
| FileSystem.OtherReadsFail | file_system.c:187-228 | a read from behind the end or with a count that wraps stays in the inode exactly when a bad index comes before its end, and then returns -1; and exactly when it stays in the buffer |
| FileSystem.FullInodeRunsOut | file_system.c:202-228 | with all indices good it copies all blocks of the inode and runs on |
| Drains.SharedDrainExactly | file_system.c:298-309 | whatever others do to the flag: what a reader collects in terms of the flag at and after its short read, and when that is the file |
| Drains.TwoReadersSpoilEachOther | file_system.c:298-309 | two readers that take turns: one gets its byte twice, the other none |
| FileSystem.MagicTestIgnoresStackExactly | system_call_handler.c:239-287 | the executable test depends on the disk alone exactly when the readable bytes are not a proper beginning of the magic number |
| FileSystem.IntactReply | file_system.c:292-309 | on an intact file the 32-bit position never wraps and file_read follows the protocol |
| FileSystem.DirectoryRounds | file_system.c:370-395 | from index 0 dir_read lists every name once, in order, then 0, and starts over |
| FileSystem.AllNamesExactly | file_system.c:335-395 | what a reader to the first 0 collects from any index, and that it is all the names exactly from index 0 with no nameless entry |
| FileSystem.EarlyStopCostsNext | file_system.c:357-395 | a reader that stops early costs the next exactly the names it has read |
| FileSystem.ListedNameIsFound | file_system.c:53-121 | looking a listed name up gives the first entry of that name, the entry itself exactly when no earlier one shares it |
| FileDriver.Files.SameName | file_system.c:69-87 | the two-stage comparison is equality of the clipped names |
| FileDriver.Files.ReadDentryByName | file_system.c:53-121 | first match or -1 |
| FileDriver.Files.ReadDentryByIndex | file_system.c:135-151 | the entry, or -1 past the count |
| FileDriver.Files.ReadData | file_system.c:167-232 | the nested loops copy exactly the readable bytes wanted, leave the rest of the buffer alone and return n, 0 or -1, in 32-bit arithmetic and for any request that ends inside the inode |
| FileDriver.Files.FileOpen | file_system.c:247-250 | resets the shared flag and stores the entry found |
| FileDriver.Files.FileRead | file_system.c:274-310 | value, position and flag for every outcome of the read; on an intact file the protocol's, with the next piece of the file in the buffer and the rest of the buffer untouched |
| FileDriver.Files.DirRead | file_system.c:370-395 | delivers the name at the index, advances or resets it, touches no other byte of the buffer |
| FileDriver.Files.HasMagic | system_call_handler.c:278-284 | the four bytes left in the buffer are compared with the magic number, whatever read_data returned |
| FileDriver.Files.CheckProgram | system_call_handler.c:272-287 | not found, not executable or loadable, for every directory and every inode |
| FileDriver.Files.LoadImage | system_call_handler.c:379-390 | the image and the entry point, those of the file when it is intact |
| SystemCalls.FirstWordNames | system_call_handler.c:254-268 | the word before the first space or newline names the file, the rest is the argument |
| SystemCalls.OneWordNames | system_call_handler.c:254-262 | a command without either names the file by all of itself |
| SystemCalls.LoadsExactly | system_call_handler.c:272-287 | the named file loads exactly when the first entry of the name has the magic number |
| SystemCalls.Execute | system_call_handler.c:220-390 | nothing on a null command; else exactly when a program starts, and from the command line to the loaded image: which file is checked, what the process part does, what is loaded |
| SystemCalls.Open | system_call_handler.c:484-542 | descriptor and jump table's open: opening a regular file clears the shared flag |
| SystemCalls.ReadFile | system_call_handler.c:428-446 | file_read through the caller's descriptor, whose position alone changes in the PCBs |
| SystemCalls.ReadOn | file_system.c:274-310 | reads of any fixed size until the first 0 are the drain of the protocol, whatever the position and the shared flag at the start |
| SystemCalls.ReadWhole | file_system.c:247-310 | open and reads of any fixed size until the first 0 leave exactly the file in the reader's hands |
| Console.Putc | lib.c:262-357 | keeps the cursor inside 80x25 or at the pending position |
| Console.PutcBackground | lib.c:179-253 | keeps the same cursor bounds |
| Console.BackgroundAgreesExactly | lib.c:246-250 | both output routines agree on every state and byte but printing in column 79 |
| Console.BackgroundNeverLeavesRow | lib.c:246-250 | printing in the background never leaves the row it starts on, from any cursor |
| Console.PutcRefinesPaper | lib.c:262-357 | each byte moves the screen like a 25-row window on an endless typewriter page |
| Console.ScreenIsWindowOnPaper | lib.c:19-357 | from clear, any byte string leaves the screen a window on the paper, blank from the cursor on |
| Console.LayoutIsFaithfulExactly | lib.c:271-311 | text is laid out faithfully exactly when no newline met a pending scroll; each one that did costs one row |
| Console.FullScreenSwallowsNewline | lib.c:271-311 | the newline after a screenful of printing characters is swallowed |
| Console.PutcKeepsCoherence | lib.c:275-296 | output keeps the screen equal to the backup but for the mouse mark, and a scroll makes them equal |
| ScreenRuns.MovementIsSigned | mouse.c:216-219 | nine bits in two's complement, the sign from the first byte |
| ScreenRuns.MouseFollowsPacket | mouse.c:216-241 | column and row after a packet, on the screen and past each edge |
| ScreenRuns.MarkIsDrawn | mouse.c:224-242 | '?' in the new cell, the backup's character in the one it leaves, all others as they were |
| ScreenRuns.MarkKeepsToMovement | mouse.c:227-228 | five times the column change is within 4 of the movement, ten times the row change within 9, each on its side of 0 |
| ScreenRuns.DisplayStaysInStep | lib.c:262-357 | over all runs of output, clears, mouse moves and switches without a vidmap program, the screen is the displayed backup up to the mouse mark |
| ScreenRuns.RunInStep | pit.c:138-139 | with vidmap programs it is so again whenever nothing was stored behind the display since the last copy, clear or switch |
| Display.Screens.Clear | lib.c:19-31 | blank and coherent from any state |
| Display.Screens.ScrollBoth | lib.c:275-296 | the in-place ascending pass moves both copies up one row and repairs the mouse cell |
| Display.Screens.Putc | lib.c:262-357 | backup, cursor and screen after putc; other terminals untouched; coherence kept; a `Put` step of the display |
| Display.Screens.ScrollBackup | lib.c:191-203 | the background scroll moves the backup up one row |
| Display.Screens.PutcBackground | lib.c:179-253 | backup and cursor after background output; screen and other terminals untouched |
| Display.Screens.SwitchTo | keyboard.c:195-208 | the new terminal's backup is on the screen, coherent |
| Display.Screens.Refresh | pit.c:138-139 | the tick's copy restores coherence after any writes through vidmap |
| Display.Screens.MouseMove | mouse.c:213-243 | the old cell is repaired, the mark stays on the screen, also while a vidmap program has changed the backup; if the two agreed, only its cell differs; the mark moves by a fifth of the reported distance across and a tenth up, truncated and clamped |
| Display.Screens.TerminalWrite | terminal.c:149-199 | foreground or background output by the terminal that runs, plus a newline on the displayed one after exactly 128 bytes |
| Display.BackgroundWriteStaysHome | terminal.c:183-192 | a background write leaves the displayed terminal alone exactly when it is not 128 bytes long, or the newline happens to change nothing |
| Format.RoundTrip | lib.c:372-402 | formatting then reading is the identity for every value and radix 2..36, without leading zeros |
| Format.DigitsInjective | lib.c:372-402 | different values have different texts |
| Format.DigitCodes | lib.c:373 | the digits are 0 to 9, then A to Z |
| Format.LengthBounds | lib.c:372-402 | every 32-bit value takes at most 32 digits, 8 in hexadecimal, 10 in decimal |
| Format.Strlen | lib.c:427-432 | the distance to the first NUL |
| Format.Strrev | lib.c:408-421 | the string is reversed in place and nothing else changes |
| Format.Itoa | lib.c:372-402 | the buffer holds the digits and a NUL, nothing else changes |
| Format.PrintHexAligned | lib.c:90-100 | exactly eight hexadecimal digits that read back as the value |
| Format.PrintUnsigned | lib.c:106-113 | the decimal digits of the value |
| Format.PrintSigned | lib.c:116-129 | a minus sign and the magnitude, for every 32-bit integer |
| Arguments.ParseCommand | system_call_handler.c:249-269 | name, separator and argument make up the command |
| Arguments.Strcpy | lib.c:621-629 | the characters and the NUL, nothing behind it |
| Arguments.Strncpy | lib.c:637-648 | exactly n characters, padded with NULs |
| Arguments.GetArgs | system_call_handler.c:33-54 | what is written where, and -1 without an argument; a negative count is a huge unsigned one |
| Arguments.GetArgsStaysInBuffer | system_call_handler.c:46-50 | the caller's buffer is respected exactly when the argument is no longer than it and the count not negative |
| Keyboard.KeysAreConserved | keyboard.c:253-316 | lines delivered plus the pending line are exactly the keys typed, exactly when no Enter met a full line |
| Keyboard.KeyCount | keyboard.c:268 | each such Enter costs one character, nothing else does |
| Keyboard.FullLineLosesEnter | keyboard.c:268 | the Enter after the keys that fill the line is such an Enter |
| Keyboard.FullLineIsDelivered | keyboard.c:287-314 | the next key on a line of 128 delivers it, and what stays of the key |
| Keyboard.ClearScreenForgets | keyboard.c:318-328 | Ctrl+L on a shorter line delivers nothing and leaves an empty one |
| Keyboard.EditsReach | keyboard.c:331-345 | over runs of characters and backspaces the buffer holds the line shown, and behind it what was erased up to the longest the line has been |
| Keyboard.DeliveredIsShownExactly | keyboard.c:253-345 | Enter delivers the line shown exactly when the line was never more than one character longer |
| Keyboard.StaleTailExactly | keyboard.c:331-338 | what Enter delivers after backspaces, and exactly when it is the line shown |
| Keyboard.LineBuffer.PressKey | keyboard.c:253-412 | line buffer, delivery and history rows after one key, history indices in 0..20 |
| Keyboard.LineBuffer.Remember | keyboard.c:256-266 | one history row is written, the others kept, the count wraps at 20 |
| Keyboard.LineBuffer.Recall | keyboard.c:226-246 | the line becomes the previous history row up to its NUL, a full row included when the NUL lies right behind it |
| TextBar.CellsAreDistinct | text.c:88-89 | the pixel-to-cell map is one-to-one and stays in the buffer |
| TextBar.EveryCellIsAPixel | text.c:88-89 | and onto |
| TextBar.AddressIsCell | text.c:89 | the address expression is the cell of the intended pixel |
| TextBar.BitsLeftToRight | text.c:78-92 | column c of a font row is bit 7 - c of its byte |
| TextBar.PixelOfCharacter | text.c:68-95 | where each pixel of each character is and what colour it has |
| TextBar.HighBitIsLeftmost | text.c:82-92 | a font row of 0x80 lights the leftmost pixel and no other |
| TextBar.MarginsAreBackground | text.c:68-95 | everything outside the centred text is background, with equal margins |
| TextBar.BitTest | text.c:88 | testing a font bit with the mask is the parity of the quotient |
| TextBar.PictureIsWhole | text.c:68-95 | the pixels determine the whole buffer |
| TextBar.TextBufBuild | text.c:56-125 | every pixel of the bar has the font colour exactly when the text lights it |

## Left out

- Port I/O, interrupt controllers, mouse set-up, sound, mode X, VGA registers, the hardware cursor and the RTC: no state the properties speak of.
- Descriptor tables, boot code and the system call linkage: constants and glue.
- What runs inside user programs, the iret and leave sequences, and the user stack: a kernel frame is an opaque pair.
- Races inside one step (`sti` in `putc`, a tick inside `execute` after `sti`): each step and each character output is atomic.
- The `hello_flag` side effect of `execute` on the displayed terminal; the keyboard model takes the flag as given.
- Scan-code tables and modifier keys: the keyboard model starts from the decoded key.
- `terminal_read`, and with it the reader's side of `share_buf`.
- Character attributes, the click-to-type loop of the mouse, and a `strlen` that runs past the end of a name or a history row: names are cut at 32 bytes first, rows are required to end in time.
- Calls the source turns away at once: mouse interrupts without a usable packet, `terminal_write` on a null buffer or a negative count.
- `getargs` on a null buffer, which the source does not turn away.
- Text for the bar with characters above 127: the source would index the font with a negative number.
- TextBar.TextBufBuild: requires 40 characters for the left-aligned case, where the source reads on behind a shorter string.
- FileDriver.Files.ReadData: requires that the walk over block indices ends inside the inode and the copied bytes inside the buffer; what lies behind an inode is the next inode, and that is not modelled. FileSystem.OtherReadsFail says exactly when.
- FileDriver.Files.FileRead: the same.
- FileDriver.Files.LoadImage: requires of an accepted file that its inode is in the table, that it is not between 1 and 23 bytes long (execute reads from byte 24 without looking at the length) and that the image fits.
- SystemCalls.Execute: the same, in `ImageFits`; and the `hello_flag` side effect is left out.
- SystemCalls.ReadFile: descriptors of regular files only; the other jump tables' reads are modelled on their own (`DirRead`) or left out.
- KernelState.Kernel.Open: does not model the call through the jump table, which SystemCalls.Open adds for files and directories; RTC_open has no state here.
- KernelState.Kernel.Vidmap: does not model the store through `screen_start` itself; AddressSpaces.VidmapStoresForCallerExactly says whose memory it changes.
- Arguments.ParseCommand: requires name and argument to fit their 128-byte buffers, which the source does not check.
- KernelState.Kernel.Tick: requires exactly the states in which no empty list is indexed and no PCB of slot -1 is written; boot states outside are described by SlotRuns.BootRace and the exact conditions.
- Keyboard.LineBuffer.Recall: requires the row's first NUL at the latest right behind the row; a longer copy leaves the line buffer.
