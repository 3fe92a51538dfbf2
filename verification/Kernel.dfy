/**
 The process part of the kernel on its own arrays.  Each method is proved to
 carry out the step of the same name in Slots.dfy; `stacks` is the ghost
 abstraction of the three `phys_mem_idx` lists.
 */
module KernelState {
  import opened Slots
  import opened SlotInvariant
  import opened SlotRuns
  import Paging

  class Kernel {
    const avail: array<int>      // phys_addr_available
    const physMem: array2<int>   // terminals[t].phys_mem_idx[i]
    const pcb: array<Pcb>        // one PCB below each 8 KB kernel stack
    const vidOn: array<bool>     // terminals[t].vid_on
    var running: int
    var displayed: int
    var esp0: int
    var ss0: int
    var cr3: int
    var regs: Frame
    var flag: bool
    var firstExecute: bool
    var exceptionFlag: bool
    ghost var stacks: seq<seq<int>>

    ghost function Abs(): State
      reads this, pcb, vidOn
    {
      State(stacks, running, displayed, pcb[..], esp0, ss0, cr3, regs, flag, firstExecute, exceptionFlag, vidOn[..])
    }

    /** List `t` is the stack of terminal `t`, padded with -1. */
    ghost predicate ListOk(t: int)
      reads `stacks, physMem
      requires |stacks| == TERMINALS && 0 <= t < TERMINALS
      requires physMem.Length0 == TERMINALS && physMem.Length1 == SLOTS
    {
      && |stacks[t]| <= SLOTS
      && forall k :: 0 <= k < SLOTS ==> physMem[t, k] == if k < |stacks[t]| then stacks[t][k] else -1
    }

    ghost predicate Lists()
      reads `stacks, physMem
    {
      && |stacks| == TERMINALS && physMem.Length0 == TERMINALS && physMem.Length1 == SLOTS
      && forall t :: 0 <= t < TERMINALS ==> ListOk(t)
    }

    /** A slot is available iff it is in no list; `claimed` is the one just being taken. */
    ghost predicate Availability(claimed: int)
      reads `stacks, avail
    {
      avail.Length == SLOTS &&
      forall s :: 0 <= s < SLOTS ==> avail[s] == if Used(stacks, s) || s == claimed then 0 else 1
    }

    /** The arrays represent `Abs()`: three padded lists, and a slot is available iff in none. */
    ghost predicate Rep()
      reads this, avail, physMem, pcb, vidOn
    {
      pcb.Length == SLOTS && vidOn.Length == TERMINALS && WellFormed(Abs()) && Lists() && Availability(-1)
    }

    ghost predicate HasCaller()
      reads this
    {
      0 <= running < |stacks| && |stacks[running]| > 0
    }

    /** terminal_init and PIT_init. */
    constructor ()
      ensures Rep() && fresh(avail) && fresh(physMem) && fresh(pcb) && fresh(vidOn)
      ensures stacks == [[], [], []] && running == 0 && displayed == 0 && firstExecute && !flag && !exceptionFlag
      ensures esp0 == EIGHT_MB && ss0 == KERNEL_DS && cr3 == 0
    {
      var blank := Pcb(ALL_CLOSED, "", 0, 0, Frame(0, 0), 0, Frame(0, 0), 0, 0);
      avail := new int[SLOTS](_ => 1);
      physMem := new int[TERMINALS, SLOTS]((_, _) => -1);
      pcb := new Pcb[SLOTS](_ => blank);
      vidOn := new bool[TERMINALS](_ => false);
      running, displayed := 0, 0;
      esp0, ss0, cr3, regs := EIGHT_MB, KERNEL_DS, 0, Frame(0, 0);
      flag, firstExecute, exceptionFlag := false, true, false;
      stacks := [[], [], []];
      new;
      assert forall s :: !Used(stacks, s);
    }

    /** The scan for the first -1 in a list, made by nearly every call. */
    method FindEnd(t: int) returns (i: int)
      requires Lists() && 0 <= t < TERMINALS
      requires forall k :: 0 <= k < |stacks[t]| ==> stacks[t][k] != -1
      ensures i == |stacks[t]| <= SLOTS
    {
      assert ListOk(t);
      i := 0;
      while i < SLOTS
        invariant 0 <= i <= |stacks[t]|
      {
        if physMem[t, i] == -1 { break; }
        i := i + 1;
      }
    }

    method FindCaller() returns (slot: int)
      requires Rep() && HasCaller()
      ensures slot == Top(Abs(), running)
    {
      var i := FindEnd(running);
      assert ListOk(running);
      slot := physMem[running, i - 1];
    }

    /** The claiming loop: the first available slot, marked taken. */
    method ClaimSlot() returns (slot: int)
      requires Availability(-1)
      modifies avail
      ensures slot == FirstFree(stacks, 0) && Availability(slot)
    {
      slot := 0;
      while slot < SLOTS
        invariant 0 <= slot <= SLOTS
        invariant forall s :: 0 <= s < slot ==> Used(stacks, s)
        invariant Availability(-1)
      {
        if avail[slot] != 0 {
          avail[slot] := 0;
          break;
        }
        slot := slot + 1;
      }
    }

    /** The push loop of `execute`: the first -1 of the running list becomes `slot`. */
    method PushSlot(slot: int)
      requires Lists() && 0 <= running < TERMINALS && 0 <= slot < SLOTS && |stacks[running]| < SLOTS
      requires forall k :: 0 <= k < |stacks[running]| ==> stacks[running][k] != -1
      modifies physMem, this`stacks
      ensures stacks == old(stacks)[running := old(stacks)[running] + [slot]] && Lists()
    {
      assert ListOk(running);
      var i := 0;
      while i < SLOTS
        invariant 0 <= i <= |stacks[running]|
        invariant stacks == old(stacks)
        invariant forall t, k :: 0 <= t < TERMINALS && 0 <= k < SLOTS ==> physMem[t, k] == old(physMem[t, k])
      {
        if physMem[running, i] == -1 {
          physMem[running, i] := slot;
          break;
        }
        i := i + 1;
      }
      stacks := stacks[running := stacks[running] + [slot]];
      forall t | 0 <= t < TERMINALS ensures ListOk(t) {
        assert old(ListOk(t));
      }
    }

    /** Both loops: claim the first free slot and, if there is one, push it. */
    method ClaimAndPush() returns (slot: int)
      requires Lists() && Availability(-1) && Distinct(stacks) && 0 <= running < TERMINALS
      requires forall t, k :: 0 <= t < TERMINALS && 0 <= k < |stacks[t]| ==> 0 <= stacks[t][k] < SLOTS
      modifies `stacks, avail, physMem
      ensures Lists() && Availability(-1) && slot == FirstFree(old(stacks), 0)
      ensures stacks == if slot < SLOTS then old(stacks)[running := old(stacks)[running] + [slot]] else old(stacks)
    {
      slot := ClaimSlot();
      if slot < SLOTS {
        FreeMeansRoom(stacks, slot, running);
        PushSlot(slot);
        UsedAfterPush(old(stacks), running, slot);
      }
    }

    /** The part of `execute` that writes the new PCB, loads CR3 and sets the TSS. */
    method EnterProgram(slot: int, arg: string, frame: Frame)
      requires 0 <= slot < SLOTS == pcb.Length
      modifies `esp0, `ss0, `cr3, `regs, pcb
      ensures pcb[..] == old(pcb[..])[slot := old(pcb[slot]).(
        fds := INITIAL_FDS, arg := arg, parent := frame,
        parentEsp0 := if slot > 2 then old(esp0) else Esp0Of(slot),
        parentSs0 := if slot > 2 then old(ss0) else KERNEL_DS,
        parentPdbr := if slot > 2 then old(cr3) else DirOf(slot))]
      ensures esp0 == Esp0Of(slot) && ss0 == KERNEL_DS && cr3 == DirOf(slot)
      ensures regs == Frame(USER_STACK, frame.ebp)
    {
      pcb[slot] := pcb[slot].(parent := frame);
      pcb[slot] := pcb[slot].(arg := arg);
      pcb[slot] := pcb[slot].(fds := INITIAL_FDS);
      if slot > 2 {
        pcb[slot] := pcb[slot].(parentPdbr := cr3, parentEsp0 := esp0, parentSs0 := ss0);
      } else {
        pcb[slot] := pcb[slot].(parentEsp0 := EIGHT_MB - slot * EIGHT_KB, parentSs0 := KERNEL_DS);
      }
      cr3 := DirOf(slot);  // set_page loads CR3 with the new directory
      if slot < 3 {
        pcb[slot] := pcb[slot].(parentPdbr := cr3);
      }
      ss0 := KERNEL_DS;
      esp0 := EIGHT_MB - slot * EIGHT_KB;
      regs := Frame(USER_STACK, frame.ebp);
    }

    /** `execute` once the file is known to load. */
    method Start(arg: string, frame: Frame) returns (started: bool)
      requires Rep()
      modifies `stacks, `esp0, `ss0, `cr3, `regs, avail, physMem, pcb
      ensures started == (FirstFree(old(stacks), 0) < SLOTS)
      ensures Rep() && Abs() == if started then Launch(old(Abs()), FirstFree(old(stacks), 0), arg, frame) else old(Abs())
    {
      ghost var m := Abs();
      var slot := ClaimAndPush();
      if slot >= SLOTS {
        return false;
      }
      EnterProgram(slot, arg, frame);
      LaunchWellFormed(m, slot, arg, frame);
      assert Abs() == Launch(m, slot, arg, frame);
      started := true;
    }

    /** `execute` on a command that is not null. */
    method Execute(file: Lookup, arg: string, frame: Frame) returns (started: bool)
      requires Rep()
      modifies `exceptionFlag, `stacks, `esp0, `ss0, `cr3, `regs, avail, physMem, pcb
      ensures Rep() && Abs() == Slots.Execute(old(Abs()), file, arg, frame)
      ensures started == Launches(old(Abs()), file)
    {
      exceptionFlag := false;
      if !file.Loadable? { return false; }
      started := Start(arg, frame);
    }

    /** The part of `halt` that reads the way back out of the PCB and clears it. */
    method LeaveProgram(slot: int) returns (way: Frame)
      requires 0 <= slot < SLOTS == pcb.Length
      modifies `esp0, `ss0, `cr3, pcb
      ensures pcb[..] == old(pcb[..])[slot := old(pcb[slot]).(
        fds := if slot > 2 then ALL_CLOSED else old(pcb[slot].fds),
        parentEsp0 := 0, parentSs0 := 0, parent := Frame(0, 0), parentPdbr := 0)]
      ensures esp0 == old(pcb[slot].parentEsp0) && ss0 == old(pcb[slot].parentSs0)
      ensures cr3 == old(pcb[slot].parentPdbr) && way == old(pcb[slot].parent)
    {
      if slot > 2 {
        pcb[slot] := pcb[slot].(fds := ALL_CLOSED);
      }
      ss0 := pcb[slot].parentSs0;
      esp0 := pcb[slot].parentEsp0;
      pcb[slot] := pcb[slot].(parentSs0 := 0, parentEsp0 := 0);
      way := pcb[slot].parent;
      pcb[slot] := pcb[slot].(parent := Frame(0, 0));
      cr3 := pcb[slot].parentPdbr;
      pcb[slot] := pcb[slot].(parentPdbr := 0);
    }

    /** The part of `halt` before it looks at `curr_halt < 3`. */
    method GiveUpSlot() returns (slot: int, way: Frame)
      requires Rep() && HasCaller()
      modifies `stacks, `esp0, `ss0, `cr3, avail, physMem, pcb, vidOn
      ensures Rep() && Abs() == Pop(old(Abs()))
      ensures slot == Top(old(Abs()), running) && way == old(pcb[..])[slot].parent
    {
      ghost var m := Abs();
      PopWellFormed(m);
      var i := FindEnd(running);
      assert ListOk(running);
      slot := physMem[running, i - 1];
      ReleaseSlot(slot, i - 1);
      way := LeaveProgram(slot);
      vidOn[running] := false;
      assert Abs() == Pop(m);
    }

    method ReleaseSlot(slot: int, level: int)
      requires Lists() && Availability(-1) && 0 <= running < TERMINALS
      requires level == |stacks[running]| - 1 >= 0 && slot == stacks[running][level] && 0 <= slot < SLOTS
      requires forall s :: Used(stacks[running := stacks[running][..level]], s) <==> Used(stacks, s) && s != slot
      modifies `stacks, avail, physMem
      ensures stacks == old(stacks)[running := old(stacks)[running][..level]]
      ensures Lists() && Availability(-1)
    {
      assert ListOk(running);
      avail[slot] := 1;
      physMem[running, level] := -1;
      ghost var after := stacks[running := stacks[running][..level]];
      forall s | 0 <= s < SLOTS ensures avail[s] == if Used(after, s) then 0 else 1 {
        assert Used(after, s) <==> Used(stacks, s) && s != slot;
        assert s != slot ==> avail[s] == old(avail[s]);
      }
      stacks := after;
      forall t | 0 <= t < TERMINALS ensures ListOk(t) {
        assert old(ListOk(t));
      }
    }

    method Halt(status: int, shell: Lookup, restart: Frame) returns (value: int)
      requires Rep() && HasCaller()
      modifies `stacks, `esp0, `ss0, `cr3, `regs, `exceptionFlag, avail, physMem, pcb, vidOn
      ensures Rep() && Abs() == Slots.Halt(old(Abs()), shell, restart)
      ensures Top(old(Abs()), running) > 2 ==> value == HaltValue(old(Abs()), status)
    {
      var st := if exceptionFlag then 255 else status;
      var slot, way := GiveUpSlot();
      if slot < 3 {
        var started := Execute(shell, "", restart);
        if started { return 0; }
      }
      regs := way;
      value := st + if exceptionFlag then 1 else 0;
    }

    /** An exception handler: set the flag, then halt. */
    method Fault(shell: Lookup, restart: Frame) returns (value: int)
      requires Rep() && HasCaller()
      modifies `stacks, `esp0, `ss0, `cr3, `regs, `exceptionFlag, avail, physMem, pcb, vidOn
      ensures Rep() && Abs() == Slots.Halt(old(Abs()).(exceptionFlag := true), shell, restart)
    {
      exceptionFlag := true;
      value := Halt(0, shell, restart);
    }

    method SaveContext(slot: int, frame: Frame)
      requires 0 <= slot < SLOTS == pcb.Length
      modifies pcb
      ensures pcb[..] == old(pcb[..])[slot := old(pcb[slot]).(curr := frame, currPdbr := cr3, currEsp0 := esp0)]
    {
      pcb[slot] := pcb[slot].(curr := frame, currPdbr := cr3);
      pcb[slot] := pcb[slot].(currEsp0 := esp0);
    }

    method LoadContext(slot: int)
      requires 0 <= slot < SLOTS == pcb.Length
      modifies `esp0, `cr3, `regs
      ensures esp0 == pcb[slot].currEsp0 && cr3 == pcb[slot].currPdbr && regs == pcb[slot].curr
    {
      esp0 := pcb[slot].currEsp0;
      cr3 := pcb[slot].currPdbr;
      regs := pcb[slot].curr;
    }

    /** The loop over entries 1..5 of the running list. */
    method OnlyShell() returns (alone: bool)
      requires Rep()
      ensures alone == (|stacks[running]| <= 1)
    {
      assert ListOk(running);
      var i := 1;
      while i < SLOTS
        invariant 1 <= i <= SLOTS
        invariant forall k :: 1 <= k < i ==> physMem[running, k] == -1
      {
        if physMem[running, i] != -1 { break; }
        i := i + 1;
      }
      alone := i == SLOTS;
      if |stacks[running]| > 1 { assert physMem[running, 1] == stacks[running][1] >= 0; }
    }

    /** The PIT interrupt.  `shell` is what the file checks say about "shell". */
    method Tick(frame: Frame, shell: Lookup, launch: Frame)
      requires Rep() && TickSafe(Abs(), shell)
      modifies this, avail, physMem, pcb
      ensures Rep() && Abs() == Slots.Tick(old(Abs()), frame, shell, launch)
    {
      if firstExecute {
        firstExecute := false;
        var started := Execute(shell, "", launch);
        if started { return; }
      }
      var alone := OnlyShell();
      if alone && !flag {
        BootBranch(frame, shell, launch);
      } else {
        RoundRobinBranch(frame);
      }
    }

    method BootBranch(frame: Frame, shell: Lookup, launch: Frame)
      requires Rep() && HasCaller() && BootTick(Abs())
      modifies this, avail, physMem, pcb
      ensures Rep() && Abs() == Slots.Switch(old(Abs()), frame, shell, launch)
    {
      SaveShell(frame);
      if running < TERMINALS {
        var _ := Execute(shell, "", launch);
      } else {
        running := 0;
        LoadContext(0);
      }
    }

    /** Saves the shell at the bottom; `running` is 3 for a moment after the last one. */
    method SaveShell(frame: Frame)
      requires Rep() && HasCaller() && BootTick(Abs())
      modifies `running, `flag, pcb
      ensures running == old(running) + 1
      ensures Abs() ==
        SaveInto(old(Abs()).(flag := old(running) == 2), old(stacks[running][0]), frame).(running := running)
      ensures running < TERMINALS ==> Rep()
      ensures Lists() && Availability(-1)
    {
      if running == 2 { flag := true; }
      assert ListOk(running);
      var slot := physMem[running, 0];
      SaveContext(slot, frame);
      running := running + 1;
    }

    /** Saves the running terminal's top and makes the next terminal the running one. */
    method SaveAndAdvance(frame: Frame)
      requires Rep() && HasCaller()
      modifies `running, pcb
      ensures Rep() && running == (old(running) + 1) % 3
      ensures Abs() == SaveInto(old(Abs()), Top(old(Abs()), old(running)), frame).(running := running)
    {
      var slot := FindCaller();
      SaveContext(slot, frame);
      assert Abs() == SaveInto(old(Abs()), slot, frame);
      running := (running + 1) % 3;
    }

    method RoundRobinBranch(frame: Frame)
      requires Rep() && HasCaller() && !BootTick(Abs()) && |stacks[(running + 1) % 3]| > 0
      modifies this, pcb
      ensures Rep() && forall sh, l :: Abs() == Slots.Switch(old(Abs()), frame, sh, l)
    {
      SaveAndAdvance(frame);
      ghost var saved := Abs();
      var slot := FindCaller();
      LoadContext(slot);
      assert Abs() == LoadFrom(saved, slot);
    }

    method Open(found: bool, fileType: int, inode: int) returns (fd: int)
      requires Rep() && HasCaller()
      modifies pcb
      ensures Rep() && Abs() == Slots.Open(old(Abs()), found, fileType, inode)
      ensures fd == OpenResult(old(Abs()), found)
      ensures fd != -1 ==>
        0 <= fd < 8 && TopFds(Abs())[fd].ops == if fileType == 0 then Rtc else if fileType == 1 then Dir else File
    {
      if !found { return -1; }
      var slot := FindCaller();
      fd := -1;
      var i := 0;
      while i < DESCRIPTORS
        invariant 0 <= i <= DESCRIPTORS && fd == -1
        invariant forall j :: 0 <= j < i ==> pcb[slot].fds[j].flags != 0
      {
        if pcb[slot].fds[i].flags == 0 {
          fd := i;
          break;
        }
        i := i + 1;
      }
      if fd == -1 { return; }
      if fileType == 0 {
        pcb[slot] := pcb[slot].(fds := pcb[slot].fds[fd := Descriptor(Rtc, 0, 0, 1)]);
      } else if fileType == 1 {
        pcb[slot] := pcb[slot].(fds := pcb[slot].fds[fd := Descriptor(Dir, 0, 0, 1)]);
      } else {
        pcb[slot] := pcb[slot].(fds := pcb[slot].fds[fd := Descriptor(File, inode, 0, 1)]);
      }
      assert Abs() == Slots.Open(old(Abs()), found, fileType, inode);
    }

    method Close(fd: int) returns (r: int)
      requires Rep() && HasCaller()
      modifies pcb
      ensures Rep() && Abs() == Slots.Close(old(Abs()), fd)
      ensures r == CloseResult(old(Abs()), fd)
    {
      if fd < 0 || fd > 7 { return -1; }
      var slot := FindCaller();
      if fd < 2 || pcb[slot].fds[fd].flags == 0 { return -1; }
      pcb[slot] := pcb[slot].(fds := pcb[slot].fds[fd := CLOSED]);
      r := 0;
      assert Abs() == Slots.Close(old(Abs()), fd);
    }

    /** The table `read` (forbidden 1) or `write` (forbidden 0) calls through; none on an error. */
    method Dispatch(fd: int, forbidden: int) returns (ops: Operations)
      requires Rep() && HasCaller()
      ensures ops == if fd == forbidden || fd < 0 || fd > 7 || TopFds(Abs())[fd].flags == 0
                     then NoTable else TopFds(Abs())[fd].ops
    {
      if fd == forbidden { return NoTable; }
      if fd < 0 || fd > 7 { return NoTable; }
      var slot := FindCaller();
      if pcb[slot].fds[fd].flags == 0 { return NoTable; }
      ops := pcb[slot].fds[fd].ops;
    }

    /** The descriptor a file operation gets a pointer to. */
    method Fetch(fd: int) returns (d: Descriptor)
      requires Rep() && HasCaller() && 0 <= fd < DESCRIPTORS
      ensures d == TopFds(Abs())[fd]
    {
      var slot := FindCaller();
      d := pcb[slot].fds[fd];
    }

    /** What such an operation leaves there. */
    method Store(fd: int, d: Descriptor)
      requires Rep() && HasCaller() && 0 <= fd < DESCRIPTORS
      modifies pcb
      ensures Rep() && Abs() == WithFds(old(Abs()), old(TopFds(Abs()))[fd := d])
    {
      var slot := FindCaller();
      pcb[slot] := pcb[slot].(fds := pcb[slot].fds[fd := d]);
      assert Abs() == WithFds(old(Abs()), old(TopFds(Abs()))[fd := d]);
    }

    /** `address` is what vidmap stores through `screenStart`, after it has loaded the new directory. */
    method Vidmap(screenStart: int) returns (r: int, address: int)
      requires Rep() && |stacks[displayed]| > 0
      modifies this`cr3, vidOn
      ensures Rep() && Abs() == Slots.Vidmap(old(Abs()), screenStart)
      ensures if InUserRange(screenStart) then r == 0 && address == Paging.VID_MAP + 0x1000 * displayed else r == -1
    {
      if screenStart < Paging.USER_START || screenStart >= Paging.USER_END { return -1, 0; }
      var i := FindEnd(displayed);
      assert ListOk(displayed);
      var slot := physMem[displayed, i - 1];
      vidOn[displayed] := true;
      cr3 := DirOf(slot);  // set_page_1 loads CR3
      address := Paging.VID_MAP + 0x1000 * displayed;
      r := 0;
    }

    /** The keyboard's terminal switch, as far as the slots are concerned. */
    method SetDisplayed(t: int)
      requires Rep() && 0 <= t < TERMINALS
      modifies `displayed
      ensures Rep() && Abs() == old(Abs()).(displayed := t)
    {
      displayed := t;
    }

    /** One event on the arrays is one step of the slot machine, and allowed steps keep the invariant. */
    method Perform(e: Event)
      requires Rep() && Enabled(Abs(), e)
      modifies this, avail, physMem, pcb, vidOn
      ensures Rep() && Abs() == Step(old(Abs()), e)
      ensures old(Good(Abs())) ==> (Good(Abs()) <==> Allowed(old(Abs()), e))
    {
      ghost var m := Abs();
      match e {
        case Tick(frame, shell, launch) => Tick(frame, shell, launch);
        case Execute(file, arg, frame) => var _ := Execute(file, arg, frame);
        case ExecuteNull =>
        case Halt(status, shell, restart) => var _ := Halt(status, shell, restart);
        case Fault(shell, restart) => var _ := Fault(shell, restart);
        case Open(found, fileType, inode) => var _ := Open(found, fileType, inode);
        case Close(fd) => var _ := Close(fd);
        case Vidmap(start) => var _, _ := Vidmap(start);
        case Display(t) => SetDisplayed(t);
      }
      if Good(m) {
        StepKeepsExactlyWhenAllowed(m, e);
      }
    }
  }

  // ------------------------------------------------------------- proof support

  /** A free slot means the running list still has a -1. */
  lemma FreeMeansRoom(stacks: seq<seq<int>>, s: int, t: int)
    requires Distinct(stacks) && 0 <= t < |stacks| && 0 <= s < SLOTS && !Used(stacks, s)
    requires forall k :: 0 <= k < |stacks[t]| ==> 0 <= stacks[t][k] < SLOTS
    ensures |stacks[t]| < SLOTS
  {
    forall i, j | 0 <= i < j < |stacks[t]| ensures stacks[t][i] != stacks[t][j] {
      assert At(stacks, t, i) != At(stacks, t, j);
    }
    DistinctSeqSize(stacks[t]);
    SixSlots();
    forall i | i in Elements(stacks[t]) + {s} ensures IsSlot(i) {
    }
    SubsetSize(Elements(stacks[t]) + {s}, AllSlots());
  }
}
