/**
 The six process slots, the three terminals that stack them, and the registers
 a system call or a timer tick changes (system_call_handler.c, pit.c).

 `State` is the value behind the kernel's global arrays: `stacks[t]` is the
 non-empty part of `terminals[t].phys_mem_idx`, bottom first, and a slot is
 available exactly when it is in no stack.  The functions below give the effect
 of one atomic step; the class in Kernel.dfy carries the steps out on the arrays.
 */
module Slots {
  import Paging

  const SLOTS := 6
  const TERMINALS := 3
  const DESCRIPTORS := 8
  const KERNEL_DS := 0x18
  const EIGHT_MB := 0x800000
  const EIGHT_KB := 0x2000
  const USER_STACK := 0x083ffffc

  /** A saved kernel stack frame, opaque to the scheduler. */
  datatype Frame = Frame(esp: int, ebp: int)

  /** Which jump table a descriptor points to. */
  datatype Operations = NoTable | Stdin | Stdout | Rtc | Dir | File

  datatype Descriptor = Descriptor(ops: Operations, inode: int, position: int, flags: int)

  const CLOSED := Descriptor(NoTable, 0, 0, 0)
  const ALL_CLOSED: seq<Descriptor> := [CLOSED, CLOSED, CLOSED, CLOSED, CLOSED, CLOSED, CLOSED, CLOSED]

  datatype Pcb = Pcb(
    fds: seq<Descriptor>, arg: string,
    parentEsp0: int, parentSs0: int, parent: Frame, parentPdbr: int,
    curr: Frame, currPdbr: int, currEsp0: int)

  /** What the checks on the file behind a command find. */
  datatype Lookup = NotFound | NotExecutable | Loadable

  datatype State = State(
    stacks: seq<seq<int>>, running: int, displayed: int, pcbs: seq<Pcb>,
    esp0: int, ss0: int, cr3: int, regs: Frame,
    flag: bool, firstExecute: bool, exceptionFlag: bool, vidOn: seq<bool>)

  /** The kernel stack of slot `s` starts at the upper end of its 8 KB block. */
  function Esp0Of(s: int): int { EIGHT_MB - s * EIGHT_KB }

  /** The page directory of slot `s`, as an index into `pde_arr`. */
  function DirOf(s: int): int { s + 1 }

  predicate Used(stacks: seq<seq<int>>, s: int) {
    exists t | 0 <= t < |stacks| :: s in stacks[t]
  }

  /** The slot the claiming loop of `execute` stops at; SLOTS when all are used. */
  function FirstFree(stacks: seq<seq<int>>, from: nat): (s: nat)
    requires from <= SLOTS
    ensures from <= s <= SLOTS
    ensures s < SLOTS ==> !Used(stacks, s)
    ensures forall i :: from <= i < s ==> Used(stacks, i)
    decreases SLOTS - from
  {
    if from == SLOTS || !Used(stacks, from) then from else FirstFree(stacks, from + 1)
  }

  function Top(m: State, t: int): int
    requires 0 <= t < |m.stacks| && |m.stacks[t]| > 0
  {
    m.stacks[t][|m.stacks[t]| - 1]
  }

  /** What every C object of the right size satisfies once stacks hold real slots. */
  ghost predicate WellFormed(m: State) {
    && |m.stacks| == TERMINALS && |m.pcbs| == SLOTS && |m.vidOn| == TERMINALS
    && 0 <= m.running < TERMINALS && 0 <= m.displayed < TERMINALS
    && (forall s :: 0 <= s < SLOTS ==> |m.pcbs[s].fds| == DESCRIPTORS)
    && (forall t, k :: 0 <= t < TERMINALS && 0 <= k < |m.stacks[t]| ==> 0 <= m.stacks[t][k] < SLOTS)
    && Distinct(m.stacks)
  }

  /** The slot at level `k` of terminal `t`. */
  function At(stacks: seq<seq<int>>, t: int, k: int): int
    requires 0 <= t < |stacks| && 0 <= k < |stacks[t]|
  {
    stacks[t][k]
  }

  ghost predicate Distinct(stacks: seq<seq<int>>) {
    forall t, k, t', k' {:trigger At(stacks, t, k), At(stacks, t', k')} ::
      (0 <= t < |stacks| && 0 <= k < |stacks[t]| && 0 <= t' < |stacks| && 0 <= k' < |stacks[t']|
       && At(stacks, t, k) == At(stacks, t', k')) ==> t == t' && k == k'
  }

  // ------------------------------------------------------------------ execute

  const INITIAL_FDS: seq<Descriptor> :=
    [Descriptor(Stdin, 0, 0, 1), Descriptor(Stdout, 0, 0, 1), CLOSED, CLOSED, CLOSED, CLOSED, CLOSED, CLOSED]

  /** `execute` after the checks on the file: claim `s` for the running terminal. */
  function Launch(m: State, s: int, arg: string, frame: Frame): State
    requires 0 <= m.running < |m.stacks| && 0 <= s < |m.pcbs|
  {
    var child := m.pcbs[s].(
      fds := INITIAL_FDS, arg := arg, parent := frame,
      parentEsp0 := if s > 2 then m.esp0 else Esp0Of(s),
      parentSs0 := if s > 2 then m.ss0 else KERNEL_DS,
      parentPdbr := if s > 2 then m.cr3 else DirOf(s));
    m.(stacks := m.stacks[m.running := m.stacks[m.running] + [s]],
       pcbs := m.pcbs[s := child],
       esp0 := Esp0Of(s), ss0 := KERNEL_DS, cr3 := DirOf(s),
       regs := Frame(USER_STACK, frame.ebp))
  }

  predicate Launches(m: State, file: Lookup) {
    file.Loadable? && FirstFree(m.stacks, 0) < SLOTS
  }

  function Execute(m: State, file: Lookup, arg: string, frame: Frame): State
    requires 0 <= m.running < |m.stacks| && |m.pcbs| == SLOTS
  {
    var m0 := m.(exceptionFlag := false);
    if Launches(m, file) then Launch(m0, FirstFree(m.stacks, 0), arg, frame) else m0
  }

  // --------------------------------------------------------------------- halt

  /** Everything `halt` does before it looks at `curr_halt < 3`. */
  function Pop(m: State): State
    requires WellFormed(m) && |m.stacks[m.running]| > 0
  {
    var s := Top(m, m.running);
    var p := m.pcbs[s];
    var stack := m.stacks[m.running];
    m.(stacks := m.stacks[m.running := stack[..|stack| - 1]],
       pcbs := m.pcbs[s := p.(fds := if s > 2 then ALL_CLOSED else p.fds,
                              parentEsp0 := 0, parentSs0 := 0, parent := Frame(0, 0), parentPdbr := 0)],
       esp0 := p.parentEsp0, ss0 := p.parentSs0, cr3 := p.parentPdbr,
       vidOn := m.vidOn[m.running := false])
  }

  function Halt(m: State, shell: Lookup, restart: Frame): State
    requires WellFormed(m) && |m.stacks[m.running]| > 0
  {
    var s := Top(m, m.running);
    var p := m.pcbs[s];
    var popped := Pop(m);
    if s < 3 then
      var m' := Execute(popped, shell, "", restart);
      if Launches(popped, shell) then m' else m'.(regs := p.parent)
    else
      popped.(regs := p.parent)
  }

  /** The value `halt` hands to the parent: status plus flag, 255 + 1 after an exception. */
  function HaltValue(m: State, status: int): int {
    if m.exceptionFlag then 255 + 1 else status
  }

  // --------------------------------------------------------------------- tick

  function SaveInto(m: State, s: int, frame: Frame): State
    requires 0 <= s < |m.pcbs|
  {
    m.(pcbs := m.pcbs[s := m.pcbs[s].(curr := frame, currPdbr := m.cr3, currEsp0 := m.esp0)])
  }

  function LoadFrom(m: State, s: int): State
    requires 0 <= s < |m.pcbs|
  {
    var p := m.pcbs[s];
    m.(esp0 := p.currEsp0, cr3 := p.currPdbr, regs := p.curr)
  }

  /** The test pit.c makes on the running terminal: only a shell, boot not finished. */
  predicate BootTick(m: State)
    requires 0 <= m.running < |m.stacks|
  {
    |m.stacks[m.running]| <= 1 && !m.flag
  }

  /** The first tick starts a shell and does not come back from `execute`, unless `execute` fails. */
  predicate FirstShellStarts(m: State, shell: Lookup) { m.firstExecute && Launches(m, shell) }

  /** Exactly when a tick reads no `phys_mem_idx[-1]` and saves into no PCB of slot -1.  A first tick
      whose shell does not start falls through to the scan of the running list like any other. */
  predicate TickSafe(m: State, shell: Lookup)
    requires |m.stacks| == TERMINALS && 0 <= m.running < TERMINALS
  {
    FirstShellStarts(m, shell)
    || (|m.stacks[m.running]| > 0 && (BootTick(m) || |m.stacks[(m.running + 1) % 3]| > 0))
  }

  /** `frame` is the interrupted frame; `launch` is the frame of `execute` when the tick starts a shell. */
  function Tick(m: State, frame: Frame, shell: Lookup, launch: Frame): State
    requires WellFormed(m) && TickSafe(m, shell)
  {
    if FirstShellStarts(m, shell) then Execute(m.(firstExecute := false), shell, "", launch)
    else if m.firstExecute then Switch(m.(firstExecute := false, exceptionFlag := false), frame, shell, launch)
    else Switch(m, frame, shell, launch)
  }

  /** The part of the tick behind the first `execute`. */
  function Switch(m: State, frame: Frame, shell: Lookup, launch: Frame): State
    requires WellFormed(m) && |m.stacks[m.running]| > 0
    requires BootTick(m) || |m.stacks[(m.running + 1) % 3]| > 0
  {
    if BootTick(m) then
      var saved := SaveInto(m.(flag := m.running == 2), m.stacks[m.running][0], frame);
      if m.running + 1 < TERMINALS then
        Execute(saved.(running := m.running + 1), shell, "", launch)
      else
        LoadFrom(saved.(running := 0), 0)
    else
      var saved := SaveInto(m, Top(m, m.running), frame);
      var next := (m.running + 1) % 3;
      LoadFrom(saved.(running := next), Top(saved, next))
  }

  // ------------------------------------------------------------ descriptors

  /** The first descriptor whose flag is 0; DESCRIPTORS when there is none. */
  function FirstClosed(fds: seq<Descriptor>, from: nat): (fd: nat)
    requires from <= |fds|
    ensures from <= fd <= |fds|
    ensures fd < |fds| ==> fds[fd].flags == 0
    ensures forall i :: from <= i < fd ==> fds[i].flags != 0
    decreases |fds| - from
  {
    if from == |fds| || fds[from].flags == 0 then from else FirstClosed(fds, from + 1)
  }

  /** The jump table and inode `open` chooses by the type in the directory entry. */
  function Opened(fileType: int, inode: int): Descriptor {
    if fileType == 0 then Descriptor(Rtc, 0, 0, 1)
    else if fileType == 1 then Descriptor(Dir, 0, 0, 1)
    else Descriptor(File, inode, 0, 1)
  }

  function WithFds(m: State, fds: seq<Descriptor>): State
    requires WellFormed(m) && |m.stacks[m.running]| > 0
  {
    var s := Top(m, m.running);
    m.(pcbs := m.pcbs[s := m.pcbs[s].(fds := fds)])
  }

  function TopFds(m: State): seq<Descriptor>
    requires WellFormed(m) && |m.stacks[m.running]| > 0
  {
    m.pcbs[Top(m, m.running)].fds
  }

  function OpenResult(m: State, found: bool): int
    requires WellFormed(m) && |m.stacks[m.running]| > 0
  {
    var fd := FirstClosed(TopFds(m), 0);
    if found && fd < DESCRIPTORS then fd else -1
  }

  function Open(m: State, found: bool, fileType: int, inode: int): State
    requires WellFormed(m) && |m.stacks[m.running]| > 0
  {
    var fd := OpenResult(m, found);
    if fd == -1 then m else WithFds(m, TopFds(m)[fd := Opened(fileType, inode)])
  }

  function CloseResult(m: State, fd: int): int
    requires WellFormed(m) && |m.stacks[m.running]| > 0
  {
    if fd < 2 || fd > 7 || TopFds(m)[fd].flags == 0 then -1 else 0
  }

  function Close(m: State, fd: int): State
    requires WellFormed(m) && |m.stacks[m.running]| > 0
  {
    if CloseResult(m, fd) == -1 then m else WithFds(m, TopFds(m)[fd := CLOSED])
  }

  // ------------------------------------------------------------------- vidmap

  /** The test on the pointer `vidmap` is to store its result through. */
  predicate InUserRange(screenStart: int) { Paging.USER_START <= screenStart < Paging.USER_END }

  /** `vidmap` looks up the terminal on display, not the running one. */
  function Vidmap(m: State, screenStart: int): State
    requires WellFormed(m) && |m.stacks[m.displayed]| > 0
  {
    if !InUserRange(screenStart) then m
    else m.(vidOn := m.vidOn[m.displayed := true], cr3 := DirOf(Top(m, m.displayed)))
  }
}
