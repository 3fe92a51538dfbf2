/**
 What every run of ticks, executes, halts, faults, opens, closes, vidmaps and
 terminal switches keeps.
 */
module SlotRuns {
  import opened Slots
  import opened SlotInvariant

  /** The state `terminal_init` and `PIT_init` leave; PCB memory holds anything. */
  ghost predicate Initial(m: State) {
    && WellFormed(m) && m.stacks == [[], [], []] && m.running == 0 && m.displayed == 0
    && m.firstExecute && !m.flag
  }

  /** Each step has a caller and meets the condition that keeps the invariant. */
  ghost predicate Runs(m: State, es: seq<Event>)
    decreases es
  {
    && WellFormed(m)
    && (es == [] || (Enabled(m, es[0]) && Allowed(m, es[0]) && Runs(Step(m, es[0]), es[1..])))
  }

  ghost predicate Takes(m: State, e: Event) {
    WellFormed(m) && Enabled(m, e) && Allowed(m, e)
  }

  ghost function Run(m: State, es: seq<Event>): State
    requires Runs(m, es)
    decreases es
  {
    if es == [] then m else Run(Step(m, es[0]), es[1..])
  }

  /** The state in which event `i` of the run happens; after the last one, the final state. */
  ghost function StateAt(m: State, es: seq<Event>, i: nat): (r: State)
    requires Runs(m, es) && i <= |es|
    ensures WellFormed(r) && (i < |es| ==> Enabled(r, es[i]) && Allowed(r, es[i]))
    decreases i
  {
    if i == 0 then m else StateAt(Step(m, es[0]), es[1..], i - 1)
  }

  function Ticks(es: seq<Event>): nat {
    if es == [] then 0 else (if es[0].Tick? then 1 else 0) + Ticks(es[1..])
  }

  // ------------------------------------------------------- invariant and clock

  /** Where `n` ticks after power-on leave the boot and the round robin. */
  predicate Clock(m: State, n: nat) {
    if n < 4 then !m.flag && Started(m) == n && (m.firstExecute <==> n == 0)
    else m.flag && m.running == (n - 4) % 3
  }

  lemma OtherStepsKeepClock(m: State, e: Event)
    requires WellFormed(m) && Enabled(m, e) && !e.Tick?
    ensures var m' := Step(m, e);
      m'.flag == m.flag && m'.running == m.running && m'.firstExecute == m.firstExecute
  {
    match e
    case Execute(file, arg, f) => ExecuteKeepsClock(m, file, arg, f);
    case Halt(_, sh, r) => ExecuteKeepsClock(Pop(m), sh, "", r);
    case Fault(sh, r) => ExecuteKeepsClock(Pop(m.(exceptionFlag := true)), sh, "", r);
    case _ =>
  }

  lemma ExecuteKeepsClock(m: State, file: Lookup, arg: string, frame: Frame)
    requires 0 <= m.running < |m.stacks| && |m.pcbs| == SLOTS
    ensures var m' := Slots.Execute(m, file, arg, frame);
      m'.flag == m.flag && m'.running == m.running && m'.firstExecute == m.firstExecute
  {
  }

  lemma TickClock(m: State, e: Event)
    requires Good(m) && Takes(m, e) && e.Tick?
    ensures m.firstExecute ==> !Step(m, e).flag && !Step(m, e).firstExecute && Step(m, e).running == 0
    ensures m.flag ==> Step(m, e).flag && Step(m, e).running == (m.running + 1) % 3
    ensures !m.flag && !m.firstExecute && m.running < 2 ==>
      !Step(m, e).flag && !Step(m, e).firstExecute && Step(m, e).running == m.running + 1
    ensures !m.flag && !m.firstExecute && m.running == 2 ==> Step(m, e).flag && Step(m, e).running == 0
  {
    if !m.firstExecute {
      assert TerminalOk(m, m.running);
    }
  }

  lemma StepClock(m: State, e: Event, n: nat)
    requires Good(m) && Takes(m, e) && Clock(m, n)
    ensures Clock(Step(m, e), n + (if e.Tick? then 1 else 0))
  {
    if e.Tick? {
      TickClock(m, e);
      if n >= 4 { NextTurn(n - 4); }
    } else {
      OtherStepsKeepClock(m, e);
    }
  }

  lemma NextTurn(k: nat)
    ensures (k % 3 + 1) % 3 == (k + 1) % 3
  {
  }

  lemma {:induction false} RunClock(m: State, es: seq<Event>, n: nat)
    requires Good(m) && Runs(m, es) && Clock(m, n)
    ensures Good(Run(m, es)) && Clock(Run(m, es), n + Ticks(es))
    decreases es
  {
    if es == [] {
    } else {
      StepKeepsExactlyWhenAllowed(m, es[0]);
      StepClock(m, es[0], n);
      RunClock(Step(m, es[0]), es[1..], n + (if es[0].Tick? then 1 else 0));
    }
  }

  /** Power-on to any state: the invariant always holds, the fourth tick ends the boot with
      terminal 0 running, and after `k` more ticks terminal `k % 3` runs. */
  lemma FromPowerOn(m: State, es: seq<Event>)
    requires Initial(m) && Runs(m, es)
    ensures Good(Run(m, es))
    ensures Ticks(es) < 4 ==> !Run(m, es).flag && Started(Run(m, es)) == Ticks(es)
    ensures Ticks(es) >= 4 ==> Steady(Run(m, es)) && Run(m, es).running == (Ticks(es) - 4) % 3
  {
    assert Linked(m);
    RunClock(m, es, 0);
  }

  lemma {:induction false} RoundRobin(m: State, es: seq<Event>)
    requires Steady(m) && Runs(m, es)
    ensures Steady(Run(m, es)) && Run(m, es).running == (m.running + Ticks(es)) % 3
  {
    RunClock(m, es, 4 + m.running);
  }

  // -------------------------------------------------------------- three stacks

  ghost function Elements(s: seq<int>): set<int> { set x | x in s }

  lemma {:induction false} DistinctSeqSize(s: seq<int>)
    requires forall i, j :: 0 <= i < j < |s| ==> s[i] != s[j]
    ensures |Elements(s)| == |s|
  {
    if s == [] {
    } else {
      var rest := s[1..];
      DistinctSeqSize(rest);
      assert Elements(s) == Elements(rest) + {s[0]};
      assert s[0] !in rest;
    }
  }

  ghost function SlotSet(m: State): set<int>
    requires |m.stacks| == TERMINALS
  {
    Elements(m.stacks[0]) + Elements(m.stacks[1]) + Elements(m.stacks[2])
  }

  ghost function Processes(m: State): nat
    requires |m.stacks| == TERMINALS
  {
    |m.stacks[0]| + |m.stacks[1]| + |m.stacks[2]|
  }

  lemma StacksDisjoint(m: State, t: int, u: int)
    requires WellFormed(m) && 0 <= t < u < TERMINALS
    ensures Elements(m.stacks[t]) !! Elements(m.stacks[u])
    ensures |Elements(m.stacks[t])| == |m.stacks[t]| && |Elements(m.stacks[u])| == |m.stacks[u]|
  {
    assert forall v, k :: 0 <= v < TERMINALS && 0 <= k < |m.stacks[v]| ==> m.stacks[v][k] == At(m.stacks, v, k);
    DistinctSeqSize(m.stacks[t]);
    DistinctSeqSize(m.stacks[u]);
  }

  predicate IsSlot(i: int) { 0 <= i < SLOTS }

  ghost function AllSlots(): set<int> { set i | 0 <= i < SLOTS && IsSlot(i) }

  lemma SixSlots()
    ensures |AllSlots()| == SLOTS
  {
    assert AllSlots() == {0, 1, 2, 3, 4, 5};
  }

  lemma SubsetSize(a: set<int>, b: set<int>)
    requires a <= b
    ensures |a| <= |b| && (|a| == |b| ==> a == b)
  {
    assert b == a + (b - a);
  }

  lemma ProcessesAreSlots(m: State)
    requires WellFormed(m)
    ensures Processes(m) == |SlotSet(m)| && SlotSet(m) <= AllSlots()
  {
    StacksDisjoint(m, 0, 1);
    StacksDisjoint(m, 0, 2);
    StacksDisjoint(m, 1, 2);
    forall t | 0 <= t < TERMINALS ensures Elements(m.stacks[t]) <= AllSlots() {
      forall i | i in Elements(m.stacks[t]) ensures IsSlot(i) {
      }
    }
  }

  lemma UsedIsInSlotSet(m: State, i: int)
    requires WellFormed(m)
    ensures Used(m.stacks, i) <==> i in SlotSet(m)
  {
  }

  /** The slots partition into three stacks and the free set, so no list overflows, and
      `execute` runs out of slots exactly when three programs are alive in all terminals together. */
  lemma SlotsPartition(m: State)
    requires Steady(m)
    ensures 3 <= Processes(m) <= SLOTS
    ensures forall t :: 0 <= t < TERMINALS ==> 1 <= |m.stacks[t]| <= SLOTS - 2
    ensures FirstFree(m.stacks, 0) == SLOTS <==> Processes(m) == SLOTS
  {
    SixSlots();
    ProcessesAreSlots(m);
    SubsetSize(SlotSet(m), AllSlots());
    forall t | 0 <= t < TERMINALS ensures |m.stacks[t]| >= 1 {
      assert TerminalOk(m, t);
    }
    FullExactly(m);
  }

  lemma FullExactly(m: State)
    requires WellFormed(m) && SlotSet(m) <= AllSlots()
    ensures FirstFree(m.stacks, 0) == SLOTS <==> SlotSet(m) == AllSlots()
  {
    forall i ensures Used(m.stacks, i) <==> i in SlotSet(m) {
      UsedIsInSlotSet(m, i);
    }
    var s := FirstFree(m.stacks, 0);
    if s < SLOTS {
      assert s in AllSlots();
    }
  }

  // ------------------------------------------------------------- preemption

  /** Terminal `t` does not run in any state of the run. */
  ghost predicate OffCpu(m: State, es: seq<Event>, t: int)
    requires Runs(m, es)
    decreases es
  {
    m.running != t && (es == [] || OffCpu(Step(m, es[0]), es[1..], t))
  }

  /** Same processes on terminal `t`, and every one of their PCBs untouched. */
  ghost predicate SameTerminal(m: State, m': State, t: int)
    requires WellFormed(m) && WellFormed(m') && 0 <= t < TERMINALS
  {
    m'.stacks[t] == m.stacks[t] &&
    forall k :: 0 <= k < |m.stacks[t]| ==> m'.pcbs[m.stacks[t][k]] == m.pcbs[m.stacks[t][k]]
  }

  /** PCBs of used slots other than the running top are as before, and so are other terminals. */
  ghost predicate WritesTopOnly(m: State, m': State)
    requires WellFormed(m)
  {
    && |m'.stacks| == TERMINALS && |m'.pcbs| == SLOTS
    && (forall s :: 0 <= s < SLOTS && Used(m.stacks, s) && (|m.stacks[m.running]| == 0 || s != Top(m, m.running)) ==>
          m'.pcbs[s] == m.pcbs[s])
    && (forall t :: 0 <= t < TERMINALS && t != m.running && t != m'.running ==> m'.stacks[t] == m.stacks[t])
  }

  lemma HaltWrites(m: State, shell: Lookup, restart: Frame)
    requires WellFormed(m) && |m.stacks[m.running]| > 0
    ensures WritesTopOnly(m, Slots.Halt(m, shell, restart))
  {
    PopWellFormed(m);
  }

  lemma LaunchWrites(m: State, shell: Lookup, launch: Frame)
    requires WellFormed(m)
    ensures var m' := Slots.Execute(m, shell, "", launch);
      && (forall s :: 0 <= s < SLOTS && Used(m.stacks, s) ==> m'.pcbs[s] == m.pcbs[s])
      && (forall t :: 0 <= t < TERMINALS && t != m.running ==> m'.stacks[t] == m.stacks[t])
  {
  }

  lemma TickWrites(m: State, frame: Frame, shell: Lookup, launch: Frame)
    requires WellFormed(m) && TickSafe(m, shell)
    ensures WritesTopOnly(m, Slots.Tick(m, frame, shell, launch))
  {
    if FirstShellStarts(m, shell) {
      FirstShellWrites(m, shell, launch);
    } else if m.firstExecute {
      var m1 := m.(firstExecute := false, exceptionFlag := false);
      SwitchWrites(m1, frame, shell, launch);
      SameStacksSameWrites(m, m1, Slots.Switch(m1, frame, shell, launch));
    } else {
      SwitchWrites(m, frame, shell, launch);
    }
  }

  lemma FirstShellWrites(m: State, shell: Lookup, launch: Frame)
    requires WellFormed(m)
    ensures WritesTopOnly(m, Slots.Execute(m.(firstExecute := false), shell, "", launch))
  {
    var m1 := m.(firstExecute := false);
    LaunchWrites(m1, shell, launch);
    SameStacksSameWrites(m, m1, Slots.Execute(m1, shell, "", launch));
  }

  lemma SameStacksSameWrites(m: State, m1: State, m': State)
    requires WellFormed(m) && WellFormed(m1) && WritesTopOnly(m1, m')
    requires m1.stacks == m.stacks && m1.running == m.running && m1.pcbs == m.pcbs
    ensures WritesTopOnly(m, m')
  {
  }

  lemma SwitchWrites(m: State, frame: Frame, shell: Lookup, launch: Frame)
    requires WellFormed(m) && |m.stacks[m.running]| > 0
    requires BootTick(m) || |m.stacks[(m.running + 1) % 3]| > 0
    ensures WritesTopOnly(m, Slots.Switch(m, frame, shell, launch))
  {
    if BootTick(m) {
      BootTickWrites(m, frame, shell, launch);
    }
  }

  lemma BootTickWrites(m: State, frame: Frame, shell: Lookup, launch: Frame)
    requires WellFormed(m) && |m.stacks[m.running]| > 0 && BootTick(m)
    ensures WritesTopOnly(m, Slots.Switch(m, frame, shell, launch))
  {
    var top := m.stacks[m.running][0];
    assert top == Top(m, m.running);
    var saved := SaveInto(m.(flag := m.running == 2), top, frame);
    if m.running < 2 {
      LaunchWrites(saved.(running := m.running + 1), shell, launch);
    }
  }

  /** A step writes the PCB of the running top process or of a free slot, no other. */
  lemma StepWrites(m: State, e: Event)
    requires WellFormed(m) && Enabled(m, e)
    ensures WritesTopOnly(m, Step(m, e))
  {
    match e
    case Tick(f, sh, l) => TickWrites(m, f, sh, l);
    case Halt(_, sh, r) => HaltWrites(m, sh, r);
    case Fault(sh, r) => HaltWrites(m.(exceptionFlag := true), sh, r);
    case _ =>
  }

  /** A step that does not run on `t` before or after leaves the processes of `t` alone. */
  lemma StepOff(m: State, e: Event, t: int)
    requires Good(m) && Enabled(m, e) && Allowed(m, e) && 0 <= t < TERMINALS
    requires t != m.running && t != Step(m, e).running
    ensures WellFormed(Step(m, e)) && SameTerminal(m, Step(m, e), t)
  {
    StepKeepsExactlyWhenAllowed(m, e);
    StepWrites(m, e);
    if |m.stacks[m.running]| > 0 {
      OnlyTopIsTop(m);
    }
  }

  lemma {:induction false} RunOff(m: State, es: seq<Event>, t: int)
    requires Good(m) && Runs(m, es) && 0 <= t < TERMINALS && OffCpu(m, es, t)
    ensures WellFormed(Run(m, es)) && SameTerminal(m, Run(m, es), t)
    decreases es
  {
    if es == [] {
    } else {
      StepOff(m, es[0], t);
      StepKeepsExactlyWhenAllowed(m, es[0]);
      RunOff(Step(m, es[0]), es[1..], t);
    }
  }

  /** One tick apart at most: a terminal that has just lost the processor stays off it. */
  lemma {:induction false} OneTickStaysOff(m: State, es: seq<Event>, t: int)
    requires Steady(m) && Runs(m, es) && 0 <= t < TERMINALS && Ticks(es) <= 1
    requires m.running == (t + 1) % 3 || (m.running == (t + 2) % 3 && Ticks(es) == 0)
    ensures OffCpu(m, es, t)
    decreases es
  {
    if es == [] {
    } else {
      StepKeepsExactlyWhenAllowed(m, es[0]);
      if es[0].Tick? {
        TickClock(m, es[0]);
        TwoOn(m.running, t);
      } else {
        OtherStepsKeepClock(m, es[0]);
      }
      OneTickStaysOff(Step(m, es[0]), es[1..], t);
    }
  }

  /** The frame went into the PCB of the top process, and the next terminal's came out. */
  ghost predicate Switched(m: State, m': State, frame: Frame) {
    && WellFormed(m) && |m.stacks[m.running]| > 0 && |m'.pcbs| == SLOTS
    && m'.running == (m.running + 1) % 3 && m'.stacks == m.stacks && m'.ss0 == m.ss0
    && |m.stacks[m'.running]| > 0
    && var me, next := Top(m, m.running), Top(m, m'.running);
    && m'.pcbs[me].curr == frame && m'.pcbs[me].currPdbr == m.cr3 && m'.pcbs[me].currEsp0 == m.esp0
    && m'.regs == m.pcbs[next].curr && m'.cr3 == m.pcbs[next].currPdbr && m'.esp0 == m.pcbs[next].currEsp0
  }

  lemma SteadyTickSwitches(m: State, e: Event)
    requires Steady(m) && e.Tick? && Enabled(m, e)
    ensures Switched(m, Step(m, e), e.frame)
  {
    var next := (m.running + 1) % 3;
    assert TerminalOk(m, m.running) && TerminalOk(m, next);
    OnlyTopIsTop(m);
    assert Top(m, next) == m.stacks[next][|m.stacks[next]| - 1];
    var saved := SaveInto(m, Top(m, m.running), e.frame);
    assert saved.pcbs[Top(m, next)] == m.pcbs[Top(m, next)];
  }

  lemma TickKeepsSteady(m: State, e: Event)
    requires Steady(m) && e.Tick? && Takes(m, e)
    ensures Steady(Step(m, e)) && Switched(m, Step(m, e), e.frame)
  {
    SteadyTickSwitches(m, e);
    StepKeepsExactlyWhenAllowed(m, e);
  }

  lemma SwitchThereAndBack(m: State, m1: State, m2: State, m3: State, f1: Frame, f2: Frame)
    requires Switched(m, m1, f1) && Switched(m2, m3, f2) && WellFormed(m1)
    requires SameTerminal(m1, m2, m.running) && m2.running == (m.running + 2) % 3
    ensures m3.running == m.running && m3.stacks[m.running] == m.stacks[m.running]
    ensures m3.regs == f1 && m3.esp0 == m.esp0 && m3.cr3 == m.cr3
  {
    assert m3.running == m.running;
    assert Top(m2, m.running) == m1.stacks[m.running][|m1.stacks[m.running]| - 1];
  }

  lemma OneTickApart(m: State, es: seq<Event>, m': State, t: int)
    requires Steady(m) && Runs(m, es) && m' == Run(m, es) && Ticks(es) == 1
    requires 0 <= t < TERMINALS && m.running == (t + 1) % 3
    ensures Steady(m') && SameTerminal(m, m', t) && m'.running == (t + 2) % 3
  {
    RunOffAfterOneTick(m, es, t);
    OneTickLater(m, es, t);
  }

  lemma OneTickLater(m: State, es: seq<Event>, t: int)
    requires Steady(m) && Runs(m, es) && Ticks(es) == 1
    requires 0 <= t < TERMINALS && m.running == (t + 1) % 3
    ensures Steady(Run(m, es)) && Run(m, es).running == (t + 2) % 3
  {
    RoundRobin(m, es);
    TwoOn(m.running, t);
  }

  lemma TwoOn(running: int, t: int)
    requires 0 <= t < 3 && running == (t + 1) % 3
    ensures (running + 1) % 3 == (t + 2) % 3
  {
    if t == 0 { } else if t == 1 { } else { assert t == 2; }
  }

  lemma RunOffAfterOneTick(m: State, es: seq<Event>, t: int)
    requires Steady(m) && Runs(m, es) && Ticks(es) == 1
    requires 0 <= t < TERMINALS && m.running == (t + 1) % 3
    ensures WellFormed(Run(m, es)) && SameTerminal(m, Run(m, es), t)
  {
    OneTickStaysOff(m, es, t);
    RunOff(m, es, t);
  }

  lemma AwayForOneTick(m: State, first: Event, m1: State, es: seq<Event>, m2: State)
    requires Steady(m) && first.Tick? && Takes(m, first) && m1 == Step(m, first)
    requires Ticks(es) == 1 && Runs(m1, es) && m2 == Run(m1, es)
    ensures Steady(m1) && Steady(m2) && SameTerminal(m1, m2, m.running)
    ensures Switched(m, m1, first.frame) && m2.running == (m.running + 2) % 3
  {
    TickKeepsSteady(m, first);
    assert 0 <= m.running < 3 && m1.running == (m.running + 1) % 3;
    OneTickApart(m1, es, m2, m.running);
  }

  /** A process preempted by a tick gets the processor back three ticks later with exactly the
      frame, kernel stack and directory it lost, whatever the other terminals do in between. */
  lemma PreemptedResumes(m: State, first: Event, m1: State, es: seq<Event>, m2: State, last: Event, m3: State)
    requires Steady(m) && first.Tick? && Takes(m, first) && m1 == Step(m, first)
    requires Ticks(es) == 1 && Runs(m1, es) && m2 == Run(m1, es)
    requires last.Tick? && Takes(m2, last) && m3 == Step(m2, last)
    ensures m3.running == m.running && m3.stacks[m.running] == m.stacks[m.running]
    ensures m3.regs == first.frame && m3.esp0 == m.esp0 && m3.cr3 == m.cr3
  {
    AwayForOneTick(m, first, m1, es, m2);
    SteadyTickSwitches(m2, last);
    SwitchThereAndBack(m, m1, m2, m3, first.frame, last.frame);
  }

  // --------------------------------------------------------------------- LIFO

  /** Terminal `t` keeps more than `h` processes in every state of the run. */
  ghost predicate StaysAbove(m: State, es: seq<Event>, t: int, h: nat)
    requires Runs(m, es) && 0 <= t < TERMINALS
    decreases es
  {
    |m.stacks[t]| > h && (es == [] || StaysAbove(Step(m, es[0]), es[1..], t, h))
  }

  /** The lowest `h` processes of `t` untouched, and the one above them still with the same way back. */
  ghost predicate SameBase(m: State, m': State, t: int, h: nat)
    requires WellFormed(m) && WellFormed(m') && 0 <= t < TERMINALS
    requires |m.stacks[t]| > h && |m'.stacks[t]| > h
  {
    && (forall k :: 0 <= k <= h ==> m'.stacks[t][k] == m.stacks[t][k])
    && (forall k :: 0 <= k < h ==> m'.pcbs[m.stacks[t][k]] == m.pcbs[m.stacks[t][k]])
    && var p, q := m.pcbs[m.stacks[t][h]], m'.pcbs[m.stacks[t][h]];
       && q.parent == p.parent && q.parentEsp0 == p.parentEsp0 && q.parentSs0 == p.parentSs0
       && q.parentPdbr == p.parentPdbr && q.arg == p.arg
  }

  /** Above a bottom shell a step pushes, pops or leaves the running stack, and only a pop
      clears the way back of the process on top. */
  lemma StepOnTop(m: State, e: Event)
    requires Steady(m) && Enabled(m, e) && Allowed(m, e) && |m.stacks[m.running]| > 1
    ensures var m', r, s := Step(m, e), m.running, Top(m, m.running);
      && |m'.stacks| == TERMINALS && |m'.pcbs| == SLOTS
      && (m'.stacks[r] == m.stacks[r][..|m.stacks[r]| - 1]
          || (m.stacks[r] <= m'.stacks[r]
              && m'.pcbs[s].parent == m.pcbs[s].parent && m'.pcbs[s].parentEsp0 == m.pcbs[s].parentEsp0
              && m'.pcbs[s].parentSs0 == m.pcbs[s].parentSs0 && m'.pcbs[s].parentPdbr == m.pcbs[s].parentPdbr
              && m'.pcbs[s].arg == m.pcbs[s].arg))
  {
    SlotNumberTellsBottom(m);
    assert Top(m, m.running) in m.stacks[m.running];
  }

  lemma StepAbove(m: State, e: Event, t: int, h: nat)
    requires Steady(m) && Takes(m, e) && 0 <= t < TERMINALS && h > 0
    requires |m.stacks[t]| > h && |Step(m, e).stacks[t]| > h
    ensures WellFormed(Step(m, e)) && SameBase(m, Step(m, e), t, h)
  {
    StepKeepsExactlyWhenAllowed(m, e);
    StepWrites(m, e);
    SlotNumberTellsBottom(m);
    OnlyTopIsTop(m);
    if t == m.running {
      StepAboveRunning(m, e, Step(m, e), h);
    } else {
      if t == Step(m, e).running { ArrivingStackIsSame(m, e); }
      StepAboveOther(m, Step(m, e), t, h);
    }
  }

  lemma StepAboveRunning(m: State, e: Event, m': State, h: nat)
    requires Steady(m) && Takes(m, e) && m' == Step(m, e) && WellFormed(m') && WritesTopOnly(m, m')
    requires 0 < h < |m.stacks[m.running]| && |m'.stacks[m.running]| > h
    ensures SameBase(m, m', m.running, h)
  {
    OnlyTopIsTop(m);
    StepOnTop(m, e);
  }

  lemma StepAboveOther(m: State, m': State, t: int, h: nat)
    requires WellFormed(m) && WellFormed(m') && WritesTopOnly(m, m') && |m.stacks[m.running]| > 0
    requires 0 <= t < TERMINALS && t != m.running && h < |m.stacks[t]| && m'.stacks[t] == m.stacks[t]
    ensures SameBase(m, m', t, h)
  {
    OnlyTopIsTop(m);
  }

  lemma ArrivingStackIsSame(m: State, e: Event)
    requires Steady(m) && Takes(m, e) && Step(m, e).running != m.running
    ensures Step(m, e).stacks == m.stacks
  {
    if e.Tick? { SteadyTickSwitches(m, e); } else { OtherStepsKeepClock(m, e); }
  }

  lemma {:induction false} RunAbove(m: State, es: seq<Event>, t: int, h: nat)
    requires Steady(m) && Runs(m, es) && 0 <= t < TERMINALS && h > 0 && StaysAbove(m, es, t, h)
    ensures Steady(Run(m, es)) && |Run(m, es).stacks[t]| > h && SameBase(m, Run(m, es), t, h)
    decreases es
  {
    if es == [] {
    } else {
      StepKeepsExactlyWhenAllowed(m, es[0]);
      StepAbove(m, es[0], t, h);
      var m1 := Step(m, es[0]);
      OtherOrTickKeepsFlag(m, es[0]);
      RunAbove(m1, es[1..], t, h);
    }
  }

  lemma OtherOrTickKeepsFlag(m: State, e: Event)
    requires Steady(m) && Enabled(m, e) && Allowed(m, e)
    ensures Step(m, e).flag
  {
    if !e.Tick? { OtherStepsKeepClock(m, e); }
  }

  /** A program started from `m` runs, with anything above it and beside it, until it is back on top in `m2`. */
  ghost predicate CallInProgress(m: State, call: Event, m1: State, es: seq<Event>, m2: State) {
    && Steady(m) && call.Execute? && Takes(m, call) && Launches(m, call.file) && m1 == Step(m, call)
    && Runs(m1, es) && StaysAbove(m1, es, m.running, |m.stacks[m.running]|) && m2 == Run(m1, es)
    && WellFormed(m2) && m2.running == m.running && |m2.stacks[m.running]| == |m.stacks[m.running]| + 1
  }

  /** `m3` has the caller of `m` on top again: its stack, frame, kernel stack, directory and whole PCB. */
  ghost predicate BackAt(m: State, frame: Frame, m3: State) {
    && WellFormed(m) && |m.stacks[m.running]| > 0 && |m3.stacks| == TERMINALS && |m3.pcbs| == SLOTS
    && m3.stacks[m.running] == m.stacks[m.running] && m3.regs == frame
    && m3.esp0 == m.esp0 && m3.cr3 == m.cr3 && m3.ss0 == m.ss0
    && m3.pcbs[Top(m, m.running)] == m.pcbs[Top(m, m.running)]
  }

  /** Last in, first out: whatever a program and its descendants do, with any ticks and any other
      terminals in between, its halt puts the caller back on its own frame, kernel stack and
      directory, with its descriptors and argument as it left them. */
  lemma HaltReturnsToCaller(m: State, call: Event, m1: State, es: seq<Event>, m2: State, back: Event, m3: State)
    requires CallInProgress(m, call, m1, es, m2)
    requires (back.Halt? || back.Fault?) && Takes(m2, back) && m3 == Step(m2, back)
    ensures BackAt(m, call.frame, m3)
  {
    var t := m.running;
    var h := |m.stacks[t]|;
    CallPushes(m, call, m1);
    RunAbove(m1, es, t, h);
    assert m2.stacks[t][..h] == m.stacks[t];
    OnlyTopIsTop(m2);
    HaltPops(m2, back, m3);
  }

  /** A successful execute: the caller stays as it is below a child that knows the way back. */
  lemma CallPushes(m: State, call: Event, m': State)
    requires Steady(m) && call.Execute? && Takes(m, call) && Launches(m, call.file) && m' == Step(m, call)
    ensures var s, h := FirstFree(m.stacks, 0), |m.stacks[m.running]|;
      && Steady(m') && h > 0 && m'.stacks[m.running] == m.stacks[m.running] + [s]
      && var p := m'.pcbs[s];
      && p.arg == call.arg && p.parent == call.frame
      && p.parentEsp0 == m.esp0 && p.parentSs0 == m.ss0 && p.parentPdbr == m.cr3
      && m'.pcbs[Top(m, m.running)] == m.pcbs[Top(m, m.running)]
  {
    StepKeepsExactlyWhenAllowed(m, call);
    FirstFreeInGood(m);
    OnlyTopIsTop(m);
  }

  /** As long as a program lives, on top or not, its PCB keeps the argument it was started with,
      so `getargs` hands that one back at any later time. */
  lemma ArgumentSurvives(m: State, call: Event, m1: State, es: seq<Event>)
    requires Steady(m) && call.Execute? && Takes(m, call) && Launches(m, call.file) && m1 == Step(m, call)
    requires Runs(m1, es) && StaysAbove(m1, es, m.running, |m.stacks[m.running]|)
    ensures var t, h, m2 := m.running, |m.stacks[m.running]|, Run(m1, es);
      && Steady(m2) && |m2.stacks[t]| > h && m2.stacks[t][h] == FirstFree(m.stacks, 0)
      && m2.pcbs[m2.stacks[t][h]].arg == call.arg
  {
    CallPushes(m, call, m1);
    RunAbove(m1, es, m.running, |m.stacks[m.running]|);
  }

  /** A halt above the bottom: registers and processor state come from the halted PCB. */
  lemma HaltPops(m: State, back: Event, m': State)
    requires Steady(m) && (back.Halt? || back.Fault?) && Takes(m, back) && m' == Step(m, back)
    requires |m.stacks[m.running]| > 1
    ensures var r, p := m.running, m.pcbs[Top(m, m.running)];
      && |m'.stacks| == TERMINALS && m'.stacks[r] == m.stacks[r][..|m.stacks[r]| - 1]
      && m'.regs == p.parent && m'.esp0 == p.parentEsp0 && m'.ss0 == p.parentSs0 && m'.cr3 == p.parentPdbr
      && |m'.pcbs| == SLOTS
      && forall s :: 0 <= s < SLOTS && s != Top(m, m.running) ==> m'.pcbs[s] == m.pcbs[s]
  {
    SlotNumberTellsBottom(m);
  }

  /** What does not come back: the halt clears `vid_on` of the terminal, so the tick no longer copies
      the screen of a caller that uses vidmap.  The flag is as before exactly when it was clear. */
  lemma HaltStopsRefresh(m: State, call: Event, m1: State, es: seq<Event>, m2: State, back: Event, m3: State)
    requires CallInProgress(m, call, m1, es, m2)
    requires (back.Halt? || back.Fault?) && Takes(m2, back) && m3 == Step(m2, back)
    ensures |m3.vidOn| == TERMINALS && !m3.vidOn[m.running]
    ensures m3.vidOn[m.running] == m.vidOn[m.running] <==> !m.vidOn[m.running]
  {
    CallPushes(m, call, m1);
    RunAbove(m1, es, m.running, |m.stacks[m.running]|);
    SlotNumberTellsBottom(m2);
  }

  // -------------------------------------------------------------- descriptors

  /** In every good state `open` hands out 2..7 only, and `close` undoes it completely. */
  lemma CloseUndoesOpen(m: State, found: bool, fileType: int, inode: int)
    requires Good(m) && !m.firstExecute
    ensures |m.stacks[m.running]| > 0
    ensures var fd := OpenResult(m, found);
      fd != -1 ==>
        && 2 <= fd <= 7 && WellFormed(Slots.Open(m, found, fileType, inode))
        && TopFds(Slots.Open(m, found, fileType, inode))[fd].flags == 1
        && Slots.Close(Slots.Open(m, found, fileType, inode), fd) == m
  {
    assert TerminalOk(m, m.running);
    assert LinkedAt(m, m.running, |m.stacks[m.running]| - 1);
    var fd := OpenResult(m, found);
    if fd != -1 {
      CloseRestores(m, fd, Opened(fileType, inode));
    }
  }

  lemma CloseRestores(m: State, fd: int, d: Descriptor)
    requires WellFormed(m) && |m.stacks[m.running]| > 0 && 2 <= fd <= 7
    requires TopFds(m)[fd] == CLOSED && d.flags == 1
    ensures var m' := WithFds(m, TopFds(m)[fd := d]);
      && WellFormed(m') && TopFds(m')[fd].flags == 1 && Slots.Close(m', fd) == m
  {
    var m' := WithFds(m, TopFds(m)[fd := d]);
    assert TopFds(m')[fd := CLOSED] == TopFds(m);
    assert WithFds(m', TopFds(m)).pcbs == m.pcbs;
  }

  // ----------------------------------------------- where the promise breaks

  /** What each step does to `exception_flag`: `execute` on a command clears it, also when it fails and
      when it restarts a bottom shell; a fault above the bottom leaves it set for whoever halts next, on
      any terminal; a null command leaves it alone. */
  lemma FlagAfterStep(m: State, e: Event)
    requires Steady(m) && Takes(m, e)
    ensures Step(m, e).exceptionFlag ==
      match e
      case Execute(_, _, _) => false
      case Fault(_, _) => |m.stacks[m.running]| > 1
      case Halt(_, _, _) => |m.stacks[m.running]| > 1 && m.exceptionFlag
      case _ => m.exceptionFlag
  {
    match e
    case Tick(f, sh, l) => SteadyTickSwitches(m, e);
    case Halt(_, sh, _) => RestartClears(m, sh);
    case Fault(sh, _) => RestartClears(m, sh);
    case _ =>
  }

  lemma RestartClears(m: State, shell: Lookup)
    requires Steady(m) && (|m.stacks[m.running]| > 1 || shell.Loadable?)
    ensures Top(m, m.running) < 3 <==> |m.stacks[m.running]| == 1
    ensures |m.stacks[m.running]| == 1 ==> Launches(Pop(m), shell)
  {
    SlotNumberTellsBottom(m);
    if |m.stacks[m.running]| == 1 { RestartClaimsSameSlot(m); }
  }

  /** Event `i` is a fault of a program above a bottom shell. */
  ghost predicate FaultsAt(m: State, es: seq<Event>, i: nat)
    requires Runs(m, es) && i < |es|
  {
    var at := StateAt(m, es, i);
    es[i].Fault? && |at.stacks[at.running]| > 1
  }

  /** Event `i` calls `execute` on a command: the system call, failing or not, or the restart of a
      bottom shell. */
  ghost predicate ExecutesAt(m: State, es: seq<Event>, i: nat)
    requires Runs(m, es) && i < |es|
  {
    var at := StateAt(m, es, i);
    es[i].Execute? || ((es[i].Halt? || es[i].Fault?) && |at.stacks[at.running]| == 1)
  }

  ghost predicate NoExecuteFrom(m: State, es: seq<Event>, from: nat)
    requires Runs(m, es)
  {
    forall j :: from <= j < |es| ==> !ExecutesAt(m, es, j)
  }

  /** Some program has faulted, on whatever terminal, and nobody has called `execute` since. */
  ghost predicate FaultOutstanding(m: State, es: seq<Event>)
    requires Runs(m, es)
  {
    exists i :: 0 <= i < |es| && FaultsAt(m, es, i) && NoExecuteFrom(m, es, i + 1)
  }

  /** The rest of a run sees the same events in the same states. */
  lemma LaterAt(m: State, es: seq<Event>, i: nat)
    requires Runs(m, es) && i + 1 < |es|
    ensures FaultsAt(m, es, i + 1) <==> FaultsAt(Step(m, es[0]), es[1..], i)
    ensures ExecutesAt(m, es, i + 1) <==> ExecutesAt(Step(m, es[0]), es[1..], i)
  {
  }

  lemma LaterFrom(m: State, es: seq<Event>, from: nat)
    requires Runs(m, es) && es != []
    ensures NoExecuteFrom(m, es, from + 1) <==> NoExecuteFrom(Step(m, es[0]), es[1..], from)
  {
    var m1, rest := Step(m, es[0]), es[1..];
    forall j: nat | j < |rest| ensures ExecutesAt(m, es, j + 1) <==> ExecutesAt(m1, rest, j) {
      LaterAt(m, es, j);
    }
    if NoExecuteFrom(m1, rest, from) {
      forall j | from + 1 <= j < |es| ensures !ExecutesAt(m, es, j) {
        assert !ExecutesAt(m1, rest, j - 1);
      }
    }
  }

  lemma NoExecuteAll(m: State, es: seq<Event>)
    requires Runs(m, es) && es != []
    ensures NoExecuteFrom(m, es, 0) <==> !ExecutesAt(m, es, 0) && NoExecuteFrom(Step(m, es[0]), es[1..], 0)
  {
    LaterFrom(m, es, 0);
    if !ExecutesAt(m, es, 0) && NoExecuteFrom(m, es, 1) {
      forall j | 0 <= j < |es| ensures !ExecutesAt(m, es, j) {
      }
    }
  }

  lemma LaterOutstanding(m: State, es: seq<Event>)
    requires Runs(m, es) && es != []
    ensures var m1, rest := Step(m, es[0]), es[1..];
      FaultOutstanding(m, es) <==> FaultOutstanding(m1, rest) || (FaultsAt(m, es, 0) && NoExecuteFrom(m1, rest, 0))
  {
    var m1, rest := Step(m, es[0]), es[1..];
    LaterFrom(m, es, 0);
    if FaultOutstanding(m, es) {
      var i: nat :| i < |es| && FaultsAt(m, es, i) && NoExecuteFrom(m, es, i + 1);
      if i > 0 {
        LaterAt(m, es, i - 1);
        LaterFrom(m, es, i);
        assert FaultsAt(m1, rest, i - 1) && NoExecuteFrom(m1, rest, i - 1 + 1);
      }
    }
    if FaultOutstanding(m1, rest) {
      var i: nat :| i < |rest| && FaultsAt(m1, rest, i) && NoExecuteFrom(m1, rest, i + 1);
      LaterAt(m, es, i);
      LaterFrom(m, es, i + 1);
      assert FaultsAt(m, es, i + 1) && NoExecuteFrom(m, es, i + 1 + 1);
    }
    if FaultsAt(m, es, 0) && NoExecuteFrom(m1, rest, 0) {
      assert NoExecuteFrom(m, es, 0 + 1);
    }
  }

  /** `exception_flag` after any run: a fault set it and no `execute` has cleared it since. */
  lemma {:induction false} FlagAfterRun(m: State, es: seq<Event>)
    requires Steady(m) && Runs(m, es)
    ensures Run(m, es).exceptionFlag <==> FaultOutstanding(m, es) || (m.exceptionFlag && NoExecuteFrom(m, es, 0))
    decreases es
  {
    if es == [] {
    } else {
      FlagAfterStep(m, es[0]);
      StepKeepsExactlyWhenAllowed(m, es[0]);
      OtherOrTickKeepsFlag(m, es[0]);
      FlagAfterRun(Step(m, es[0]), es[1..]);
      LaterOutstanding(m, es);
      NoExecuteAll(m, es);
    }
  }

  /** A clean `halt` hands its own status to the parent exactly when no program of any terminal has
      faulted since the last `execute` of any terminal. */
  lemma CleanHaltReportsItsStatus(m: State, es: seq<Event>, status: int)
    requires Steady(m) && !m.exceptionFlag && Runs(m, es) && 0 <= status <= 255
    ensures HaltValue(Run(m, es), status) == status <==> !FaultOutstanding(m, es)
  {
    FlagAfterRun(m, es);
  }

  /** The failing side occurs across terminals: a fault on one, a tick, and a clean `halt` of a program
      on the next terminal reports 256. */
  lemma FaultReachesNextTerminal(m: State, fault: Event, tick: Event, status: int)
    requires Steady(m) && fault.Fault? && tick.Tick? && 0 <= status <= 255
    requires |m.stacks[m.running]| > 1 && |m.stacks[(m.running + 1) % 3]| > 1
    ensures Runs(m, [fault, tick])
    ensures var m2 := Run(m, [fault, tick]);
      && WellFormed(m2) && m2.running == (m.running + 1) % 3 && |m2.stacks[m2.running]| > 1
      && HaltValue(m2, status) == 256
  {
    var m1 := Step(m, fault);
    FlagAfterStep(m, fault);
    StepKeepsExactlyWhenAllowed(m, fault);
    OtherOrTickKeepsFlag(m, fault);
    HaltPops(m, fault, m1);
    GoodTickIsSafe(m1, tick.shell);
    TickKeepsSteady(m1, tick);
    FlagAfterStep(m1, tick);
    var m2 := Step(m1, tick);
    assert [fault, tick][1..] == [tick] && [tick][1..] == [];
    assert Run(m, [fault, tick]) == Run(m1, [tick]) == m2;
  }

  /** `exception_flag` is cleared by `execute` only: after a child has faulted, its parent's
      clean `halt` also reports 256 to the grandparent, whatever status it passes. */
  lemma FaultLeaksIntoParentsHalt(m: State, shell: Lookup, restart: Frame, status: int)
    requires Steady(m) && |m.stacks[m.running]| > 2 && 0 <= status <= 255
    ensures var m1 := Step(m, Fault(shell, restart));
      && |m1.stacks[m.running]| > 1 && HaltValue(m1, status) == 256
  {
    SlotNumberTellsBottom(m);
  }

  /** A `vidmap` made off display leaves the caller under the other process's directory, and the next
      tick saves that one for it, to be loaded when the caller resumes. */
  lemma OffDisplayVidmapSpoilsCaller(m: State, vidmap: Event, tick: Event)
    requires Steady(m) && m.displayed != m.running && vidmap.Vidmap? && InUserRange(vidmap.screenStart) && tick.Tick?
    ensures |m.stacks[m.running]| > 0 && |m.stacks[m.displayed]| > 0
    ensures Enabled(m, vidmap) && !Allowed(m, vidmap)
    ensures WellFormed(Step(m, vidmap)) && Enabled(Step(m, vidmap), tick)
    ensures var m2, me := Step(Step(m, vidmap), tick), Top(m, m.running);
      && |m2.pcbs| == SLOTS && 0 <= me < SLOTS
      && m2.pcbs[me].currPdbr == DirOf(Top(m, m.displayed)) != DirOf(me)
  {
    OnlyTopIsTop(m);
    assert TerminalOk(m, m.running) && TerminalOk(m, m.displayed) && TerminalOk(m, (m.running + 1) % 3);
    assert Top(m, m.displayed) == m.stacks[m.displayed][|m.stacks[m.displayed]| - 1];
    assert Top(m, m.running) == m.stacks[m.running][|m.stacks[m.running]| - 1];
  }

  /** A program on terminal 2 before the fourth tick: the boot flag stays clear, and the tick after
      next starts a second shell on terminal 1 that will return into terminal 0's directory. */
  lemma BootRace(m: State, tick4: Event, m4: State, tick5: Event, s: int)
    requires Good(m) && Started(m) == TERMINALS && !m.flag && |m.stacks[2]| > 1
    requires s == FirstFree(m.stacks, 0) < SLOTS
    requires tick4.Tick? && tick5.Tick? && tick5.shell.Loadable? && Enabled(m, tick4) && m4 == Step(m, tick4)
    ensures !Allowed(m, tick4) && s > 2
    ensures WellFormed(m4) && !m4.flag && Enabled(m4, tick5)
    ensures var m5 := Step(m4, tick5);
      && m5.running == 1 && m5.stacks == [[0], [1, s], m.stacks[2]] && |m5.pcbs| == SLOTS
      && m5.pcbs[s].parentPdbr == DirOf(0) && m5.pcbs[s].parentEsp0 == Esp0Of(0)
  {
    MissedFlag(m, tick4, m4);
    FirstFreeInGood(m);
    var m5 := Step(m4, tick5);
    assert m5.stacks[1] == m4.stacks[1] + [s] == [1, s];
    assert m5.stacks[0] == m4.stacks[0] && m5.stacks[2] == m4.stacks[2];
  }

  /** The fourth tick takes the other branch and leaves the boot flag clear. */
  lemma MissedFlag(m: State, tick4: Event, m4: State)
    requires Good(m) && Started(m) == TERMINALS && !m.flag && |m.stacks[2]| > 1
    requires tick4.Tick? && Enabled(m, tick4) && m4 == Step(m, tick4)
    ensures WellFormed(m4) && !m4.flag && !m4.firstExecute && m4.running == 0
    ensures m4.stacks == m.stacks == [[0], [1], m.stacks[2]]
    ensures m4.cr3 == DirOf(0) && m4.esp0 == Esp0Of(0)
  {
    assert TerminalOk(m, 0) && TerminalOk(m, 1) && TerminalOk(m, 2);
    assert m.stacks[0] == [0] && m.stacks[1] == [1];
    assert m.stacks == [m.stacks[0], m.stacks[1], m.stacks[2]];
    assert SavedAt(m, 0);
    OnlyTopIsTop(m);
    assert Top(m, 2) != m.stacks[0][0] == 0;
  }
}
