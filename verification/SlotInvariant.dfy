/**
 The whole-run invariant of the slot machine, and exactly which steps keep it.
 */
module SlotInvariant {
  import opened Slots

  datatype Event =
    | Tick(frame: Frame, shell: Lookup, launch: Frame)
    | Execute(file: Lookup, arg: string, frame: Frame)
    | ExecuteNull  // a null command: execute returns before it does anything
    | Halt(status: int, shell: Lookup, restart: Frame)
    | Fault(shell: Lookup, restart: Frame)  // an exception handler sets the flag and calls halt(0)
    | Open(found: bool, fileType: int, inode: int)
    | Close(fd: int)
    | Vidmap(screenStart: int)
    | Display(t: int)

  /** A step needs a caller on the running terminal; `vidmap` also one on the displayed terminal. */
  ghost predicate Enabled(m: State, e: Event)
    requires WellFormed(m)
  {
    match e
    case Tick(_, shell, _) => TickSafe(m, shell)
    case Vidmap(_) => |m.stacks[m.running]| > 0 && |m.stacks[m.displayed]| > 0
    case Display(t) => 0 <= t < TERMINALS
    case _ => |m.stacks[m.running]| > 0
  }

  ghost function Step(m: State, e: Event): State
    requires WellFormed(m) && Enabled(m, e)
  {
    match e
    case Tick(f, sh, l) => Slots.Tick(m, f, sh, l)
    case Execute(file, arg, f) => Slots.Execute(m, file, arg, f)
    case ExecuteNull => m
    case Halt(_, sh, r) => Slots.Halt(m, sh, r)
    case Fault(sh, r) => Slots.Halt(m.(exceptionFlag := true), sh, r)
    case Open(found, ty, ino) => Slots.Open(m, found, ty, ino)
    case Close(fd) => Slots.Close(m, fd)
    case Vidmap(start) => Slots.Vidmap(m, start)
    case Display(t) => m.(displayed := t)
  }

  // ---------------------------------------------------------------- invariant

  ghost predicate FdsOk(fds: seq<Descriptor>) {
    && |fds| == DESCRIPTORS && fds[0].flags == 1 && fds[1].flags == 1
    && forall i :: 0 <= i < DESCRIPTORS && fds[i].flags == 0 ==> fds[i] == CLOSED
  }

  /** The process below level `k` of terminal `t`; a bottom shell is its own parent. */
  function Below(m: State, t: int, k: int): int
    requires 0 <= t < |m.stacks| && 0 <= k < |m.stacks[t]|
  {
    if k == 0 then m.stacks[t][0] else m.stacks[t][k - 1]
  }

  /** The PCB at level `k` leads back to the stack and the directory of the process below. */
  ghost predicate LinkedAt(m: State, t: int, k: int)
    requires WellFormed(m) && 0 <= t < TERMINALS && 0 <= k < |m.stacks[t]|
  {
    var p := m.pcbs[m.stacks[t][k]];
    && p.parentEsp0 == Esp0Of(Below(m, t, k)) && p.parentSs0 == KERNEL_DS
    && p.parentPdbr == DirOf(Below(m, t, k)) && FdsOk(p.fds)
  }

  ghost predicate Linked(m: State)
    requires WellFormed(m)
  {
    forall t, k {:trigger LinkedAt(m, t, k)} :: 0 <= t < TERMINALS && 0 <= k < |m.stacks[t]| ==> LinkedAt(m, t, k)
  }

  /** Slot `t` is the bottom shell of terminal `t`; every program above sits in slots 3..5. */
  ghost predicate TerminalOk(m: State, t: int)
    requires WellFormed(m) && 0 <= t < TERMINALS
  {
    && |m.stacks[t]| > 0 && m.stacks[t][0] == t
    && forall k :: 0 < k < |m.stacks[t]| ==> m.stacks[t][k] >= 3
  }

  ghost predicate CpuOk(m: State)
    requires WellFormed(m)
  {
    && |m.stacks[m.running]| > 0
    && m.esp0 == Esp0Of(Top(m, m.running)) && m.cr3 == DirOf(Top(m, m.running))
    && m.ss0 == KERNEL_DS
  }

  /** The context kept for a terminal that does not run is that of its top process. */
  ghost predicate SavedAt(m: State, t: int)
    requires WellFormed(m) && 0 <= t < TERMINALS
  {
    |m.stacks[t]| > 0 &&
    var p := m.pcbs[Top(m, t)];
    p.currEsp0 == Esp0Of(Top(m, t)) && p.currPdbr == DirOf(Top(m, t))
  }

  /** How many shells have been started; all of them once the boot flag is set. */
  function Started(m: State): int {
    if m.flag then TERMINALS else if m.firstExecute then 0 else m.running + 1
  }

  /** Until the flag is set, only the last terminal may carry programs, and only when all shells run. */
  ghost predicate BootShape(m: State)
    requires WellFormed(m)
  {
    && (m.firstExecute ==> m.running == 0)
    && forall t :: 0 <= t < TERMINALS && t < Started(m) && (t != m.running || Started(m) < TERMINALS) ==>
         |m.stacks[t]| == 1
  }

  /** The invariant. */
  ghost predicate Good(m: State) {
    && WellFormed(m) && Linked(m)
    && (m.flag ==> !m.firstExecute) && (!m.flag ==> BootShape(m))
    && (Started(m) > 0 ==> CpuOk(m))
    && (forall t :: 0 <= t < TERMINALS && t < Started(m) ==> TerminalOk(m, t))
    && (forall t :: 0 <= t < TERMINALS && t >= Started(m) ==> m.stacks[t] == [])
    && (forall t :: 0 <= t < TERMINALS && t < Started(m) && t != m.running ==> SavedAt(m, t))
  }

  /** The state after boot: three shells, round robin. */
  ghost predicate Steady(m: State) { Good(m) && m.flag }

  /** Which steps keep the invariant: a condition on the state before the step. */
  ghost predicate Allowed(m: State, e: Event)
    requires WellFormed(m)
  {
    match e
    case Tick(_, shell, _) =>
      m.flag || (if Started(m) < TERMINALS then shell.Loadable? else |m.stacks[2]| == 1)
    case Execute(file, _, _) => Started(m) == TERMINALS || !file.Loadable?
    case Halt(_, shell, _) => |m.stacks[m.running]| > 1 || shell.Loadable?
    case Fault(shell, _) => |m.stacks[m.running]| > 1 || shell.Loadable?
    case Vidmap(start) => InUserRange(start) ==> m.displayed == m.running
    case _ => true
  }

  // -------------------------------------------------------------- first facts

  /** In a good state every `phys_mem_idx[i-1]` of a tick is in bounds, exactly when it is not the
      first tick or the shell loads. */
  lemma GoodTickIsSafe(m: State, shell: Lookup)
    requires Good(m)
    ensures TickSafe(m, shell) <==> (m.firstExecute ==> shell.Loadable?)
  {
    if m.firstExecute {
      FirstFreeInGood(m);
    } else {
      assert TerminalOk(m, m.running);
      if !BootTick(m) {
        assert TerminalOk(m, (m.running + 1) % 3);
      }
    }
  }

  /** `curr_halt > 2` and `curr_halt < 3` decide "not the bottom" and "the bottom". */
  lemma SlotNumberTellsBottom(m: State)
    requires Good(m) && !m.firstExecute
    ensures |m.stacks[m.running]| > 0
    ensures Top(m, m.running) < 3 <==> |m.stacks[m.running]| == 1
  {
    assert TerminalOk(m, m.running);
  }

  lemma BottomsAreUsed(m: State)
    requires Good(m)
    ensures forall i :: 0 <= i < Started(m) ==> Used(m.stacks, i)
  {
    forall i | 0 <= i < Started(m) ensures Used(m.stacks, i) {
      assert TerminalOk(m, i);
      assert m.stacks[i][0] in m.stacks[i];
    }
  }

  /** Slots are claimed in order: the next shell's own during boot, a program slot afterwards. */
  lemma FirstFreeInGood(m: State)
    requires Good(m)
    ensures FirstFree(m.stacks, 0) >= Started(m)
    ensures Started(m) < TERMINALS ==> FirstFree(m.stacks, 0) == Started(m)
  {
    BottomsAreUsed(m);
    var b := Started(m);
    if b < TERMINALS {
      forall t | 0 <= t < TERMINALS ensures b !in m.stacks[t] {
        assert t < b ==> TerminalOk(m, t) && |m.stacks[t]| == 1;
      }
    }
  }

  /** No level of any terminal but the running top holds the running top's slot. */
  lemma OnlyTopIsTop(m: State)
    requires WellFormed(m) && |m.stacks[m.running]| > 0
    ensures forall t, k :: 0 <= t < TERMINALS && 0 <= k < |m.stacks[t]| ==>
      Used(m.stacks, m.stacks[t][k]) &&
      (m.stacks[t][k] == Top(m, m.running) <==> t == m.running && k == |m.stacks[t]| - 1)
  {
    var r, h := m.running, |m.stacks[m.running]|;
    forall t, k | 0 <= t < TERMINALS && 0 <= k < |m.stacks[t]|
      ensures Used(m.stacks, m.stacks[t][k])
      ensures m.stacks[t][k] == Top(m, r) <==> t == r && k == h - 1
    {
      assert m.stacks[t][k] in m.stacks[t];
      assert At(m.stacks, t, k) == m.stacks[t][k] && At(m.stacks, r, h - 1) == Top(m, r);
    }
  }

  // --------------------------------------------------------------- framework

  /** `q` links and resumes like `p`. */
  ghost predicate Agrees(p: Pcb, q: Pcb) {
    && q.parentEsp0 == p.parentEsp0 && q.parentSs0 == p.parentSs0 && q.parentPdbr == p.parentPdbr
    && q.currEsp0 == p.currEsp0 && q.currPdbr == p.currPdbr && FdsOk(q.fds)
  }

  /** Level `k` of terminal `t` holds the same slot with the same links in both states. */
  ghost predicate SameLink(m: State, m': State, t: int, k: int)
    requires WellFormed(m) && WellFormed(m') && 0 <= t < TERMINALS && 0 <= k < |m'.stacks[t]|
  {
    k < |m.stacks[t]| && m'.stacks[t][k] == m.stacks[t][k] &&
    var p, q := m.pcbs[m.stacks[t][k]], m'.pcbs[m.stacks[t][k]];
    && q.parentEsp0 == p.parentEsp0 && q.parentSs0 == p.parentSs0 && q.parentPdbr == p.parentPdbr
    && (q.fds == p.fds || FdsOk(q.fds))
  }

  /** The links survive any change to PCBs that no stack holds and any agreeing change to the rest. */
  lemma LinkedFrame(m: State, m': State)
    requires WellFormed(m) && WellFormed(m') && Linked(m)
    requires forall t, k :: 0 <= t < TERMINALS && 0 <= k < |m'.stacks[t]| ==> SameLink(m, m', t, k)
    ensures Linked(m')
  {
    forall t, k | 0 <= t < TERMINALS && 0 <= k < |m'.stacks[t]| ensures LinkedAt(m', t, k) {
      assert SameLink(m, m', t, k);
      assert LinkedAt(m, t, k);
      if k > 0 { assert SameLink(m, m', t, k - 1); }
    }
  }

  /** What terminal `t` needs of the others: nothing. */
  lemma TerminalFrame(m: State, m': State, t: int)
    requires WellFormed(m) && WellFormed(m') && 0 <= t < TERMINALS && m'.stacks[t] == m.stacks[t]
    ensures TerminalOk(m, t) ==> TerminalOk(m', t)
    ensures SavedAt(m, t) && Agrees(m.pcbs[Top(m, t)], m'.pcbs[Top(m, t)]) ==> SavedAt(m', t)
    ensures SavedAt(m, t) && m.pcbs[Top(m, t)] == m'.pcbs[Top(m, t)] ==> SavedAt(m', t)
  {
  }

  /** Steps that move nothing: same stacks, same processor, PCBs that agree. */
  lemma GoodFrame(m: State, m': State)
    requires Good(m) && |m'.pcbs| == SLOTS && |m'.vidOn| == TERMINALS && 0 <= m'.displayed < TERMINALS
    requires m'.stacks == m.stacks && m'.running == m.running && m'.flag == m.flag
    requires m'.firstExecute == m.firstExecute
    requires m'.esp0 == m.esp0 && m'.ss0 == m.ss0 && m'.cr3 == m.cr3
    requires forall s :: 0 <= s < SLOTS ==>
      |m'.pcbs[s].fds| == DESCRIPTORS && (m'.pcbs[s] == m.pcbs[s] || Agrees(m.pcbs[s], m'.pcbs[s]))
    ensures Good(m')
  {
    LinkedFrame(m, m');
    forall t | 0 <= t < TERMINALS
      ensures TerminalOk(m, t) ==> TerminalOk(m', t)
      ensures SavedAt(m, t) ==> SavedAt(m', t)
    {
      TerminalFrame(m, m', t);
    }
  }

  // ------------------------------------------------------- one step at a time

  /** Pushing a slot nobody uses keeps stacks free of duplicates. */
  lemma PushDistinct(stacks: seq<seq<int>>, t: int, s: int)
    requires 0 <= t < |stacks| && Distinct(stacks) && !Used(stacks, s)
    ensures Distinct(stacks[t := stacks[t] + [s]])
  {
    var after := stacks[t := stacks[t] + [s]];
    forall t1, k1, t2, k2 |
      0 <= t1 < |after| && 0 <= k1 < |after[t1]| && 0 <= t2 < |after| && 0 <= k2 < |after[t2]|
      && At(after, t1, k1) == At(after, t2, k2)
      ensures t1 == t2 && k1 == k2
    {
      assert k1 < |stacks[t1]| ==> At(stacks, t1, k1) == after[t1][k1];
      assert k2 < |stacks[t2]| ==> At(stacks, t2, k2) == after[t2][k2];
      assert k1 < |stacks[t1]| ==> after[t1][k1] == stacks[t1][k1] && stacks[t1][k1] in stacks[t1];
      assert k2 < |stacks[t2]| ==> after[t2][k2] == stacks[t2][k2] && stacks[t2][k2] in stacks[t2];
    }
  }

  lemma LaunchWellFormed(m: State, s: int, arg: string, frame: Frame)
    requires WellFormed(m) && 0 <= s < SLOTS && !Used(m.stacks, s)
    ensures var m' := Launch(m, s, arg, frame);
      && WellFormed(m')
      && forall t, k :: 0 <= t < TERMINALS && 0 <= k < |m.stacks[t]| ==>
           m.stacks[t][k] != s && m'.stacks[t][k] == m.stacks[t][k]
  {
    PushDistinct(m.stacks, m.running, s);
    forall t, k | 0 <= t < TERMINALS && 0 <= k < |m.stacks[t]| ensures m.stacks[t][k] != s {
      assert m.stacks[t][k] in m.stacks[t];
    }
  }

  /** A launch on the running terminal: the new top is linked to the process that called. */
  lemma LaunchKeeps(m: State, s: int, arg: string, frame: Frame)
    requires WellFormed(m) && Linked(m) && 0 <= s < SLOTS && !Used(m.stacks, s)
    requires if s > 2 then CpuOk(m) else m.stacks[m.running] == []
    ensures var m' := Launch(m, s, arg, frame);
      && WellFormed(m') && Linked(m') && CpuOk(m')
      && forall t :: 0 <= t < TERMINALS && t != m.running && SavedAt(m, t) ==> SavedAt(m', t)
  {
    var m' := Launch(m, s, arg, frame);
    LaunchWellFormed(m, s, arg, frame);
    forall t, k | 0 <= t < TERMINALS && 0 <= k < |m'.stacks[t]| ensures LinkedAt(m', t, k) {
      if k < |m.stacks[t]| {
        assert LinkedAt(m, t, k);
      }
    }
  }

  lemma UsedAfterPush(stacks: seq<seq<int>>, t: int, slot: int)
    requires 0 <= t < |stacks|
    ensures forall s :: Used(stacks[t := stacks[t] + [slot]], s) <==> Used(stacks, s) || s == slot
  {
    var after := stacks[t := stacks[t] + [slot]];
    forall s ensures Used(after, s) <==> Used(stacks, s) || s == slot {
      assert forall u :: 0 <= u < |stacks| ==> (s in after[u] <==> s in stacks[u] || (u == t && s == slot));
    }
  }

  /** Popping leaves well-formed stacks and frees the top slot, no other. */
  lemma PopWellFormed(m: State)
    requires WellFormed(m) && |m.stacks[m.running]| > 0
    ensures WellFormed(Pop(m))
    ensures forall s :: Used(Pop(m).stacks, s) <==> Used(m.stacks, s) && s != Top(m, m.running)
  {
    var m' := Pop(m);
    OnlyTopIsTop(m);
    forall t, k | 0 <= t < TERMINALS && 0 <= k < |m'.stacks[t]|
      ensures m'.stacks[t][k] == m.stacks[t][k] && At(m'.stacks, t, k) == At(m.stacks, t, k)
    {
    }
    forall s ensures Used(m'.stacks, s) <==> Used(m.stacks, s) && s != Top(m, m.running) {
      if Used(m.stacks, s) && s != Top(m, m.running) {
        var t :| 0 <= t < |m.stacks| && s in m.stacks[t];
        var k :| 0 <= k < |m.stacks[t]| && m.stacks[t][k] == s;
        assert m'.stacks[t][k] == s;
      }
    }
  }

  /** Popping returns to the process below and touches nothing another process needs. */
  lemma PopKeeps(m: State)
    requires WellFormed(m) && Linked(m) && |m.stacks[m.running]| > 0
    ensures var m' := Pop(m);
      && WellFormed(m') && Linked(m') && !Used(m'.stacks, Top(m, m.running))
      && (|m.stacks[m.running]| > 1 ==> CpuOk(m'))
      && forall t :: 0 <= t < TERMINALS && t != m.running && SavedAt(m, t) ==> SavedAt(m', t)
  {
    var m' := Pop(m);
    assert LinkedAt(m, m.running, |m.stacks[m.running]| - 1);
    PopWellFormed(m);
    OnlyTopIsTop(m);
    forall t, k | 0 <= t < TERMINALS && 0 <= k < |m'.stacks[t]|
      ensures m'.stacks[t][k] == m.stacks[t][k] && m'.stacks[t][k] != Top(m, m.running)
    {
    }
    LinkedFrame(m, m');
    forall t | 0 <= t < TERMINALS && t != m.running && SavedAt(m, t) ensures SavedAt(m', t) {
      assert Top(m, t) == m.stacks[t][|m.stacks[t]| - 1] != Top(m, m.running);
    }
  }

  /** Saving the interrupted context of the running top process. */
  lemma SaveKeeps(m: State, frame: Frame)
    requires WellFormed(m) && Linked(m) && CpuOk(m)
    ensures var m' := SaveInto(m, Top(m, m.running), frame);
      && WellFormed(m') && Linked(m')
      && forall t :: 0 <= t < TERMINALS && (t == m.running || SavedAt(m, t)) ==> SavedAt(m', t)
  {
    var m' := SaveInto(m, Top(m, m.running), frame);
    LinkedFrame(m, m');
    forall t | 0 <= t < TERMINALS && (t == m.running || SavedAt(m, t)) ensures SavedAt(m', t) {
    }
  }

  /** Loading the context saved for another terminal. */
  lemma LoadKeeps(m: State, t: int)
    requires WellFormed(m) && Linked(m) && 0 <= t < TERMINALS && SavedAt(m, t) && m.ss0 == KERNEL_DS
    ensures var m' := LoadFrom(m.(running := t), Top(m, t));
      && WellFormed(m') && Linked(m') && CpuOk(m')
      && forall u :: 0 <= u < TERMINALS ==> (SavedAt(m, u) ==> SavedAt(m', u)) && (TerminalOk(m, u) ==> TerminalOk(m', u))
  {
    var m' := LoadFrom(m.(running := t), Top(m, t));
    LinkedFrame(m, m');
    forall u | 0 <= u < TERMINALS
      ensures SavedAt(m, u) ==> SavedAt(m', u)
      ensures TerminalOk(m, u) ==> TerminalOk(m', u)
    {
      TerminalFrame(m, m', u);
    }
  }

  /** Terminals below `n` carry their shell and nothing else, each with its context saved. */
  ghost predicate ShellsSaved(m: State, n: int) {
    && WellFormed(m) && Linked(m) && 0 <= n <= TERMINALS
    && (forall t :: 0 <= t < n ==> m.stacks[t] == [t] && SavedAt(m, t))
    && (forall t :: n <= t < TERMINALS ==> m.stacks[t] == [])
  }

  lemma ShellsSavedFrame(m: State, m': State, n: int)
    requires ShellsSaved(m, n) && WellFormed(m') && m'.stacks == m.stacks && m'.pcbs == m.pcbs
    ensures ShellsSaved(m', n)
  {
    LinkedFrame(m, m');
    forall t | 0 <= t < n ensures SavedAt(m', t) {
      TerminalFrame(m, m', t);
    }
  }

  lemma ShellsSavedFirstFree(m: State, n: int)
    requires ShellsSaved(m, n) && n < TERMINALS
    ensures FirstFree(m.stacks, 0) == n && !Used(m.stacks, n)
  {
    forall i | 0 <= i < n ensures Used(m.stacks, i) {
      assert m.stacks[i][0] in m.stacks[i];
    }
    assert !Used(m.stacks, n);
  }

  /** A shell started by a tick on the next terminal. */
  lemma BootLaunch(m: State, shell: Lookup, launch: Frame)
    requires ShellsSaved(m, m.running) && !m.flag && !m.firstExecute && shell.Loadable?
    ensures Good(Slots.Execute(m, shell, "", launch))
  {
    var m0 := m.(exceptionFlag := false);
    ShellsSavedFrame(m, m0, m.running);
    ShellsSavedFirstFree(m, m.running);
    LaunchKeeps(m0, m.running, "", launch);
    LaunchedShell(m0, launch);
  }

  lemma LaunchedShell(m: State, launch: Frame)
    requires ShellsSaved(m, m.running) && !m.flag && !m.firstExecute
    requires var m' := Launch(m, m.running, "", launch);
      && WellFormed(m') && Linked(m') && CpuOk(m')
      && forall t :: 0 <= t < TERMINALS && t != m.running && SavedAt(m, t) ==> SavedAt(m', t)
    ensures Good(Launch(m, m.running, "", launch))
  {
    var m' := Launch(m, m.running, "", launch);
    assert m'.stacks[m.running] == [m.running];
    forall t | 0 <= t < m.running ensures m'.stacks[t] == [t] && TerminalOk(m', t) && SavedAt(m', t) {
      assert SavedAt(m, t);
    }
  }

  /** Without a shell on the running terminal no state of an unfinished boot is good. */
  lemma BootNeedsShell(m: State, shell: Lookup, launch: Frame)
    requires WellFormed(m) && !m.flag && !m.firstExecute && m.stacks[m.running] == [] && !shell.Loadable?
    ensures !Good(Slots.Execute(m, shell, "", launch))
  {
  }

  lemma TickKeeps(m: State, frame: Frame, shell: Lookup, launch: Frame)
    requires Good(m) && TickSafe(m, shell)
    ensures Good(Slots.Tick(m, frame, shell, launch)) <==> Allowed(m, Event.Tick(frame, shell, launch))
  {
    GoodTickIsSafe(m, shell);
    if m.firstExecute {
      FirstTick(m, shell, launch);
    } else if BootTick(m) {
      BootTickKeeps(m, frame, shell, launch);
    } else {
      RoundRobinTick(m, frame, shell, launch);
    }
  }

  lemma FirstTick(m: State, shell: Lookup, launch: Frame)
    requires Good(m) && m.firstExecute && shell.Loadable?
    ensures Good(Slots.Execute(m.(firstExecute := false), shell, "", launch))
  {
    var m1 := m.(firstExecute := false);
    assert ShellsSaved(m, 0);
    ShellsSavedFrame(m, m1, 0);
    BootLaunch(m1, shell, launch);
  }

  /** A boot tick finds one shell per started terminal. */
  lemma BootTickStacks(m: State)
    requires Good(m) && !m.firstExecute && BootTick(m)
    ensures CpuOk(m)
    ensures forall t :: 0 <= t <= m.running ==> m.stacks[t] == [t]
    ensures forall t :: m.running < t < TERMINALS ==> m.stacks[t] == []
  {
    forall t | 0 <= t <= m.running ensures m.stacks[t] == [t] {
      assert TerminalOk(m, t);
    }
  }

  /** A boot tick saves the shell it interrupts; every started shell now has its context saved. */
  lemma BootSave(m: State, frame: Frame)
    requires Good(m) && !m.firstExecute && BootTick(m)
    ensures m.stacks[m.running] == [m.running] && m.ss0 == KERNEL_DS
    ensures ShellsSaved(SaveInto(m.(flag := m.running == 2), m.running, frame), m.running + 1)
  {
    BootTickStacks(m);
    SaveKeeps(m, frame);
    var saved := SaveInto(m, m.running, frame);
    assert ShellsSaved(saved, m.running + 1);
    ShellsSavedFrame(saved, saved.(flag := m.running == 2), m.running + 1);
  }

  lemma BootTickKeeps(m: State, frame: Frame, shell: Lookup, launch: Frame)
    requires Good(m) && !m.firstExecute && BootTick(m)
    ensures m.running < 2 ==> (Good(Slots.Tick(m, frame, shell, launch)) <==> shell.Loadable?)
    ensures m.running == 2 ==>
      Steady(Slots.Tick(m, frame, shell, launch)) && Slots.Tick(m, frame, shell, launch).running == 0
  {
    BootSave(m, frame);
    var saved := SaveInto(m.(flag := m.running == 2), m.running, frame);
    if m.running < 2 {
      var next := saved.(running := m.running + 1);
      ShellsSavedFrame(saved, next, m.running + 1);
      if shell.Loadable? {
        BootLaunch(next, shell, launch);
      } else {
        BootNeedsShell(next, shell, launch);
      }
    } else {
      assert forall t :: 0 <= t < TERMINALS ==> TerminalOk(saved, t);
      SwitchTo(saved, 0);
    }
  }

  /** The other branch: once the flag is set this is every tick. */
  lemma RoundRobinTick(m: State, frame: Frame, shell: Lookup, launch: Frame)
    requires Good(m) && TickSafe(m, shell) && !m.firstExecute && !BootTick(m)
    ensures Good(Slots.Tick(m, frame, shell, launch)) <==> m.flag
  {
    if m.flag {
      SteadyTick(m, frame, shell, launch);
    } else {
      assert TerminalOk(m, 1);
      assert |Slots.Tick(m, frame, shell, launch).stacks[1]| > 0;
    }
  }

  /** Saving in a steady state leaves every terminal with a saved context. */
  lemma SteadySave(m: State, frame: Frame)
    requires Steady(m)
    ensures CpuOk(m)
    ensures var saved := SaveInto(m, Top(m, m.running), frame);
      && WellFormed(saved) && Linked(saved)
      && forall t :: 0 <= t < TERMINALS ==> TerminalOk(saved, t) && SavedAt(saved, t)
  {
    SaveKeeps(m, frame);
    var saved := SaveInto(m, Top(m, m.running), frame);
    forall t | 0 <= t < TERMINALS ensures TerminalOk(saved, t) && SavedAt(saved, t) {
      assert TerminalOk(m, t);
      TerminalFrame(m, saved, t);
    }
  }

  lemma SteadyTick(m: State, frame: Frame, shell: Lookup, launch: Frame)
    requires Steady(m)
    ensures TickSafe(m, shell) && Steady(Slots.Tick(m, frame, shell, launch))
  {
    GoodTickIsSafe(m, shell);
    SteadySave(m, frame);
    var saved := SaveInto(m, Top(m, m.running), frame);
    var next := (m.running + 1) % 3;
    assert TerminalOk(saved, next);
    SwitchTo(saved, next);
    assert Slots.Tick(m, frame, shell, launch) == LoadFrom(saved.(running := next), Top(saved, next));
  }

  lemma SwitchTo(saved: State, next: int)
    requires WellFormed(saved) && Linked(saved) && saved.flag && !saved.firstExecute && saved.ss0 == KERNEL_DS
    requires 0 <= next < TERMINALS && |saved.stacks[next]| > 0
    requires forall t :: 0 <= t < TERMINALS ==> TerminalOk(saved, t) && SavedAt(saved, t)
    ensures Steady(LoadFrom(saved.(running := next), Top(saved, next)))
  {
    LoadKeeps(saved, next);
  }

  lemma ExecuteKeeps(m: State, file: Lookup, arg: string, frame: Frame)
    requires Good(m) && |m.stacks[m.running]| > 0
    ensures Good(Slots.Execute(m, file, arg, frame)) <==> Allowed(m, Event.Execute(file, arg, frame))
  {
    var m0 := m.(exceptionFlag := false);
    GoodFrame(m, m0);
    FirstFreeInGood(m);
    if Launches(m, file) {
      if Started(m) == TERMINALS {
        ProgramLaunch(m0, FirstFree(m.stacks, 0), arg, frame);
      } else {
        EarlyLaunch(m0, FirstFree(m.stacks, 0), arg, frame);
      }
    }
  }

  lemma ProgramLaunch(m: State, s: int, arg: string, frame: Frame)
    requires Good(m) && Started(m) == TERMINALS && 3 <= s < SLOTS && !Used(m.stacks, s)
    ensures Good(Launch(m, s, arg, frame))
  {
    LaunchKeeps(m, s, arg, frame);
    var m' := Launch(m, s, arg, frame);
    forall t | 0 <= t < TERMINALS ensures TerminalOk(m', t) {
      assert TerminalOk(m, t);
    }
  }

  /** A program started before all shells run takes a shell's slot. */
  lemma EarlyLaunch(m: State, s: int, arg: string, frame: Frame)
    requires Good(m) && Started(m) < TERMINALS && 0 <= s < SLOTS && |m.stacks[m.running]| > 0
    ensures !Good(Launch(m, s, arg, frame))
  {
    assert |Launch(m, s, arg, frame).stacks[m.running]| > 1;
  }

  /** Halting a bottom shell frees its slot, and that slot is the first free one again. */
  lemma RestartClaimsSameSlot(m: State)
    requires Good(m) && |m.stacks[m.running]| == 1
    ensures Top(m, m.running) == m.running
    ensures FirstFree(Pop(m).stacks, 0) == m.running
  {
    assert TerminalOk(m, m.running);
    PopKeeps(m);
    forall i | 0 <= i < m.running ensures Used(Pop(m).stacks, i) {
      assert TerminalOk(m, i);
      assert Pop(m).stacks[i][0] in Pop(m).stacks[i];
    }
  }

  lemma HaltKeeps(m: State, shell: Lookup, restart: Frame)
    requires Good(m) && |m.stacks[m.running]| > 0
    ensures Good(Slots.Halt(m, shell, restart)) <==> |m.stacks[m.running]| > 1 || shell.Loadable?
  {
    SlotNumberTellsBottom(m);
    PopKeeps(m);
    if |m.stacks[m.running]| > 1 {
      ProgramHalt(m);
      GoodFrame(Pop(m), Slots.Halt(m, shell, restart));
    } else if shell.Loadable? {
      ShellRestart(m, shell, restart);
    } else {
      RestartClaimsSameSlot(m);
    }
  }

  lemma ProgramHalt(m: State)
    requires Good(m) && |m.stacks[m.running]| > 1
    ensures Good(Pop(m))
  {
    PopKeeps(m);
    forall t | 0 <= t < TERMINALS && t < Started(m) ensures TerminalOk(Pop(m), t) {
      assert TerminalOk(m, t);
    }
  }

  /** A bottom shell that halts comes back in the same slot of the same terminal. */
  lemma ShellRestart(m: State, shell: Lookup, restart: Frame)
    requires Good(m) && |m.stacks[m.running]| == 1 && shell.Loadable?
    ensures Good(Slots.Halt(m, shell, restart)) && Slots.Halt(m, shell, restart).stacks == m.stacks
  {
    RestartClaimsSameSlot(m);
    PopKeeps(m);
    var popped := Pop(m);
    var p0 := popped.(exceptionFlag := false);
    var m' := Slots.Halt(m, shell, restart);
    LinkedFrame(popped, p0);
    forall t | 0 <= t < TERMINALS && t < Started(m) && t != m.running ensures SavedAt(p0, t) {
      TerminalFrame(popped, p0, t);
    }
    LaunchKeeps(p0, m.running, "", restart);
    assert m'.stacks[m.running] == m.stacks[m.running] == [m.running];
    assert m'.stacks == m.stacks;
    forall t | 0 <= t < TERMINALS && t < Started(m) ensures TerminalOk(m', t) {
      TerminalFrame(m, m', t);
    }
  }

  lemma FdsKeeps(m: State, fds: seq<Descriptor>)
    requires Good(m) && |m.stacks[m.running]| > 0 && FdsOk(fds)
    ensures Good(WithFds(m, fds))
  {
    GoodFrame(m, WithFds(m, fds));
  }

  /** `vidmap` loads the directory of the displayed terminal: right exactly when that one runs. */
  lemma VidmapKeeps(m: State, start: int)
    requires Good(m) && |m.stacks[m.running]| > 0 && |m.stacks[m.displayed]| > 0
    ensures Good(Slots.Vidmap(m, start)) <==> (InUserRange(start) ==> m.displayed == m.running)
  {
    var m' := Slots.Vidmap(m, start);
    if InUserRange(start) && m.displayed != m.running {
      OnlyTopIsTop(m);
      assert Top(m, m.displayed) == m.stacks[m.displayed][|m.stacks[m.displayed]| - 1];
    } else {
      GoodFrame(m, m');
    }
  }

  /** From a good state an enabled step leads to a good state exactly when it is allowed. */
  lemma StepKeepsExactlyWhenAllowed(m: State, e: Event)
    requires Good(m) && Enabled(m, e)
    ensures Good(Step(m, e)) <==> Allowed(m, e)
  {
    match e
    case Tick(f, sh, l) => TickKeeps(m, f, sh, l);
    case Execute(file, arg, f) => ExecuteKeeps(m, file, arg, f);
    case ExecuteNull =>
    case Halt(_, sh, r) => HaltKeeps(m, sh, r);
    case Fault(sh, r) =>
      GoodFrame(m, m.(exceptionFlag := true));
      HaltKeeps(m.(exceptionFlag := true), sh, r);
    case Open(found, ty, ino) =>
      assert LinkedAt(m, m.running, |m.stacks[m.running]| - 1);
      var fd := OpenResult(m, found);
      if fd != -1 { FdsKeeps(m, TopFds(m)[fd := Opened(ty, ino)]); }
    case Close(fd) =>
      assert LinkedAt(m, m.running, |m.stacks[m.running]| - 1);
      if CloseResult(m, fd) == 0 { FdsKeeps(m, TopFds(m)[fd := CLOSED]); }
    case Vidmap(start) => VidmapKeeps(m, start);
    case Display(t) => GoodFrame(m, m.(displayed := t));
  }
}
