/**
 What single steps do, said without the functions that do it: which jump table a
 descriptor calls through, what a new process starts with, what a halted one leaves,
 and what a step does not touch.
 */
module StepEffects {
  import opened Slots
  import opened SlotInvariant
  import opened SlotRuns

  // -------------------------------------------------------------- descriptors

  /** `open` succeeds exactly when the name is found and some descriptor is free. */
  lemma OpenSucceedsExactly(m: State, found: bool)
    requires WellFormed(m) && |m.stacks[m.running]| > 0
    ensures OpenResult(m, found) != -1 <==> found && exists i :: 0 <= i < 8 && TopFds(m)[i].flags == 0
    ensures OpenResult(m, found) != -1 ==> 0 <= OpenResult(m, found) < 8 && TopFds(m)[OpenResult(m, found)].flags == 0
  {
  }

  /** Reads and writes on the descriptor `open` returns go to the clock for type 0, to the directory
      for type 1, to the file otherwise; for a file inode and position are the entry's and 0.  Every
      other descriptor is as before. */
  lemma OpenedByType(m: State, found: bool, fileType: int, inode: int)
    requires WellFormed(m) && |m.stacks[m.running]| > 0 && OpenResult(m, found) != -1
    ensures var m', fd := Slots.Open(m, found, fileType, inode), OpenResult(m, found);
      && WellFormed(m') && |m'.stacks[m'.running]| > 0
      && var d := TopFds(m')[fd];
      && d.flags == 1
      && (fileType == 0 ==> d.ops == Rtc && d.inode == 0 && d.position == 0)
      && (fileType == 1 ==> d.ops == Dir && d.inode == 0 && d.position == 0)
      && (fileType != 0 && fileType != 1 ==> d.ops == File && d.inode == inode && d.position == 0)
      && forall i :: 0 <= i < 8 && i != fd ==> TopFds(m')[i] == TopFds(m)[i]
  {
  }

  /** `close` succeeds exactly on an open descriptor from 2 to 7; it is free afterwards, so a second
      `close` fails, and every other descriptor is as before. */
  lemma CloseSucceedsExactly(m: State, fd: int)
    requires WellFormed(m) && |m.stacks[m.running]| > 0
    ensures CloseResult(m, fd) == 0 <==> 2 <= fd <= 7 && TopFds(m)[fd].flags != 0
    ensures CloseResult(m, fd) == 0 || CloseResult(m, fd) == -1
    ensures var m' := Slots.Close(m, fd);
      && WellFormed(m') && |m'.stacks[m'.running]| > 0 && CloseResult(m', fd) == -1
      && (forall i :: 0 <= i < 8 && (i != fd || CloseResult(m, fd) == -1) ==> TopFds(m')[i] == TopFds(m)[i])
      && (CloseResult(m, fd) == 0 ==> TopFds(m')[fd] == Descriptor(NoTable, 0, 0, 0))
  {
  }

  // ---------------------------------------------------------------- processes

  /** A PCB at the start of a program: descriptor 0 reads the keyboard, descriptor 1 writes the screen,
      the other six are free. */
  ghost predicate Fresh(p: Pcb, arg: string, caller: Frame) {
    && p.arg == arg && p.parent == caller && |p.fds| == 8
    && p.fds[0] == Descriptor(Stdin, 0, 0, 1) && p.fds[1] == Descriptor(Stdout, 0, 0, 1)
    && forall i :: 2 <= i < 8 ==> p.fds[i] == Descriptor(NoTable, 0, 0, 0)
  }

  /** The new process is on top of the running terminal, fresh, with its stack at the end of its 4 MB. */
  ghost predicate JustStarted(m: State, t: int, arg: string, caller: Frame) {
    && WellFormed(m) && m.running == t && |m.stacks[t]| > 0
    && Fresh(m.pcbs[Top(m, t)], arg, caller) && m.regs == Frame(0x083ffffc, caller.ebp) && m.ss0 == 0x18
  }

  lemma LaunchStarts(m: State, s: int, arg: string, frame: Frame)
    requires WellFormed(m) && 0 <= s < SLOTS && !Used(m.stacks, s)
    ensures JustStarted(Launch(m, s, arg, frame), m.running, arg, frame)
  {
    LaunchWellFormed(m, s, arg, frame);
  }

  lemma ExecuteStarts(m: State, file: Lookup, arg: string, frame: Frame)
    requires WellFormed(m) && Launches(m, file)
    ensures JustStarted(Slots.Execute(m, file, arg, frame), m.running, arg, frame)
  {
    LaunchStarts(m.(exceptionFlag := false), FirstFree(m.stacks, 0), arg, frame);
  }

  /** The program a successful `execute` starts. */
  lemma ProgramStarts(m: State, e: Event)
    requires WellFormed(m) && Enabled(m, e) && e.Execute? && Launches(m, e.file)
    ensures JustStarted(Step(m, e), m.running, e.arg, e.frame)
  {
    ExecuteStarts(m, e.file, e.arg, e.frame);
  }

  /** `execute` starts a program exactly when the file is found, has the magic number, and a slot is free. */
  lemma LaunchesExactly(m: State, file: Lookup)
    ensures Launches(m, file) <==> file.Loadable? && exists s :: 0 <= s < 6 && !Used(m.stacks, s)
  {
    if s: int :| 0 <= s < 6 && !Used(m.stacks, s) {
      assert !(FirstFree(m.stacks, 0) > s);
    }
  }

  /** The shell each of the first three ticks starts, without argument, on the terminal it goes to. */
  lemma TickStartsShell(m: State, e: Event)
    requires Good(m) && Takes(m, e) && e.Tick? && Started(m) < TERMINALS
    ensures JustStarted(Step(m, e), Started(m), "", e.launch)
  {
    FirstFreeInGood(m);
    if m.firstExecute {
      ExecuteStarts(m.(firstExecute := false), e.shell, "", e.launch);
    } else {
      BootTickStacks(m);
      BootSave(m, e.frame);
      var saved := SaveInto(m.(flag := false), m.running, e.frame);
      ExecuteStarts(saved.(running := m.running + 1), e.shell, "", e.launch);
    }
  }

  /** The shell that comes back when a bottom shell halts. */
  lemma HaltStartsShell(m: State, e: Event)
    requires Good(m) && Takes(m, e) && (e.Halt? || e.Fault?) && |m.stacks[m.running]| == 1
    ensures JustStarted(Step(m, e), m.running, "", e.restart)
  {
    RestartClaimsSameSlot(m);
    PopWellFormed(m);
    var m0 := if e.Fault? then m.(exceptionFlag := true) else m;
    PopWellFormed(m0);
    ExecuteStarts(Pop(m0), e.shell, "", e.restart);
  }

  /** A program that halts leaves its slot with every descriptor free and no way back. */
  lemma HaltFreesDescriptors(m: State, e: Event)
    requires Steady(m) && Takes(m, e) && (e.Halt? || e.Fault?) && |m.stacks[m.running]| > 1
    ensures |Step(m, e).pcbs| == SLOTS && 0 <= Top(m, m.running) < SLOTS
    ensures var p := Step(m, e).pcbs[Top(m, m.running)];
      && |p.fds| == 8 && (forall i :: 0 <= i < 8 ==> p.fds[i] == Descriptor(NoTable, 0, 0, 0))
      && p.parentEsp0 == 0 && p.parentSs0 == 0 && p.parentPdbr == 0 && p.parent == Frame(0, 0)
  {
    SlotNumberTellsBottom(m);
  }

  /** The kernel stacks are six blocks of 8 KB with a PCB at the low end of each, one below the other
      under 8 MB, all in the kernel's own page. */
  lemma KernelStacksApart(s: int, r: int)
    requires 0 <= s < r < 6
    ensures 0x400000 < Esp0Of(r) - 0x2000 < Esp0Of(r) <= Esp0Of(s) - 0x2000 < Esp0Of(s) <= 0x800000
    ensures Esp0Of(s) - 0x2000 == 0x800000 - (s + 1) * 0x2000 && DirOf(s) != DirOf(r) && DirOf(s) > 0
  {
  }

  // -------------------------------------------------------- what steps leave

  /** Steps that start and end no process and switch no terminal. */
  predicate Quiet(m: State, e: Event) {
    e.Open? || e.Close? || e.Display? || e.ExecuteNull? || (e.Execute? && !Launches(m, e.file))
    || (e.Vidmap? && !InUserRange(e.screenStart))
  }

  /** They leave all stacks and registers alone, and of the PCBs change the caller's descriptors at most. */
  lemma QuietStepsLeaveProcesses(m: State, e: Event)
    requires WellFormed(m) && Enabled(m, e) && Quiet(m, e)
    ensures var m' := Step(m, e);
      && m'.stacks == m.stacks && m'.running == m.running && m'.regs == m.regs
      && m'.esp0 == m.esp0 && m'.ss0 == m.ss0 && m'.cr3 == m.cr3
      && m'.flag == m.flag && m'.firstExecute == m.firstExecute && |m'.pcbs| == SLOTS
      && forall s :: 0 <= s < SLOTS ==>
           m'.pcbs[s] == m.pcbs[s]
           || ((e.Open? || e.Close?) && s == Top(m, m.running) && m'.pcbs[s] == m.pcbs[s].(fds := m'.pcbs[s].fds))
  {
  }

  lemma ExecuteKeepsVidOn(m: State, file: Lookup, arg: string, frame: Frame)
    requires 0 <= m.running < |m.stacks| && |m.pcbs| == SLOTS
    ensures Slots.Execute(m, file, arg, frame).vidOn == m.vidOn
  {
  }

  lemma TickKeepsVidOn(m: State, frame: Frame, shell: Lookup, launch: Frame)
    requires WellFormed(m) && TickSafe(m, shell)
    ensures Slots.Tick(m, frame, shell, launch).vidOn == m.vidOn
  {
  }

  /** `vid_on` over a step: `vidmap` sets it for the displayed terminal, a halt clears it for the
      running one, nothing else touches any. */
  lemma VidOnAfterStep(m: State, e: Event, t: int)
    requires WellFormed(m) && Enabled(m, e) && 0 <= t < TERMINALS
    ensures |Step(m, e).vidOn| == TERMINALS
    ensures Step(m, e).vidOn[t] ==
      if e.Vidmap? && 0x08000000 <= e.screenStart < 0x08400000 && t == m.displayed then true
      else if (e.Halt? || e.Fault?) && t == m.running then false
      else m.vidOn[t]
  {
    match e
    case Tick(f, sh, l) => TickKeepsVidOn(m, f, sh, l);
    case Halt(_, sh, r) => ExecuteKeepsVidOn(Pop(m), sh, "", r);
    case Fault(sh, r) => ExecuteKeepsVidOn(Pop(m.(exceptionFlag := true)), sh, "", r);
    case _ =>
  }

  /** Only the keyboard changes the terminal on display. */
  lemma DisplayedAfterStep(m: State, e: Event)
    requires WellFormed(m) && Enabled(m, e)
    ensures Step(m, e).displayed == if e.Display? then e.t else m.displayed
  {
  }
}
