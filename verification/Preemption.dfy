/**
 What the timer keeps for a process it interrupts, from power-on: the boot ticks
 included, a terminal always resumes with the context of the tick that last took
 the processor from it.
 */
module Preemption {
  import opened Slots
  import opened SlotInvariant
  import opened SlotRuns

  /** A context as a tick saves and loads it. */
  datatype Context = Context(frame: Frame, cr3: int, esp0: int)

  function SavedContext(p: Pcb): Context { Context(p.curr, p.currPdbr, p.currEsp0) }

  function Loaded(m: State): Context { Context(m.regs, m.cr3, m.esp0) }

  /** Every tick, of the boot or of the round robin, leaves the interrupted frame with the directory
      and kernel stack of that moment in the PCB of the process it interrupts. */
  lemma TickSavesInterrupted(m: State, e: Event)
    requires Good(m) && e.Tick? && Enabled(m, e) && |m.stacks[m.running]| > 0
    ensures |Step(m, e).pcbs| == SLOTS && 0 <= Top(m, m.running) < SLOTS
    ensures SavedContext(Step(m, e).pcbs[Top(m, m.running)]) == Context(e.frame, m.cr3, m.esp0)
  {
    OnlyTopIsTop(m);
    assert Top(m, m.running) == m.stacks[m.running][|m.stacks[m.running]| - 1];
    if BootTick(m) {
      BootTickStacks(m);
      BootTickSaves(m, e);
    }
  }

  lemma BootTickSaves(m: State, e: Event)
    requires Good(m) && e.Tick? && Enabled(m, e) && !m.firstExecute && BootTick(m) && m.stacks[m.running] == [m.running]
    ensures |Step(m, e).pcbs| == SLOTS
    ensures SavedContext(Step(m, e).pcbs[m.running]) == Context(e.frame, m.cr3, m.esp0)
  {
    var saved := SaveInto(m.(flag := m.running == 2), m.running, e.frame);
    if m.running < 2 {
      assert m.running in m.stacks[m.running] && Used(saved.stacks, m.running);
      LaunchWrites(saved.(running := m.running + 1), e.shell, e.launch);
    }
  }

  /** A tick that goes to a terminal with a process loads what its top process's PCB holds. */
  lemma TickLoadsSaved(m: State, e: Event)
    requires Good(m) && e.Tick? && Enabled(m, e) && |m.stacks[m.running]| > 0
    requires 0 <= Step(m, e).running < TERMINALS && |m.stacks[Step(m, e).running]| > 0
    ensures Step(m, e).running != m.running && Step(m, e).stacks == m.stacks
    ensures 0 <= Top(m, Step(m, e).running) < SLOTS
    ensures Loaded(Step(m, e)) == SavedContext(m.pcbs[Top(m, Step(m, e).running)])
  {
    if BootTick(m) {
      BootTickStacks(m);
    } else {
      SwitchLoadsSaved(m, e.frame, e.shell, e.launch);
    }
  }

  lemma SwitchLoadsSaved(m: State, frame: Frame, shell: Lookup, launch: Frame)
    requires WellFormed(m) && |m.stacks[m.running]| > 0 && !BootTick(m) && |m.stacks[(m.running + 1) % 3]| > 0
    ensures var m', next := Slots.Switch(m, frame, shell, launch), (m.running + 1) % 3;
      && m'.running == next != m.running && m'.stacks == m.stacks && 0 <= Top(m, next) < SLOTS
      && Loaded(m') == SavedContext(m.pcbs[Top(m, next)])
  {
    OnlyTopIsTop(m);
    var next := (m.running + 1) % 3;
    assert Top(m, next) == m.stacks[next][|m.stacks[next]| - 1];
  }

  // -------------------------------------------------------------- splitting runs

  lemma SliceLater(es: seq<Event>, i: nat)
    requires 0 < i <= |es|
    ensures es[1..][i - 1..] == es[i..] && es[..i] != [] && es[..i][0] == es[0] && es[..i][1..] == es[1..][..i - 1]
  {
  }

  lemma {:induction false} PrefixRuns(m: State, es: seq<Event>, i: nat)
    requires Runs(m, es) && i <= |es|
    ensures Runs(m, es[..i]) && Run(m, es[..i]) == StateAt(m, es, i)
    decreases i
  {
    if i == 0 {
      assert es[..0] == [];
    } else {
      PrefixRuns(Step(m, es[0]), es[1..], i - 1);
      SliceLater(es, i);
      RunsFirst(m, es[..i]);
    }
  }

  lemma {:induction false} SuffixRuns(m: State, es: seq<Event>, i: nat)
    requires Runs(m, es) && i <= |es|
    ensures Runs(StateAt(m, es, i), es[i..]) && Run(StateAt(m, es, i), es[i..]) == Run(m, es)
    decreases i
  {
    if i == 0 {
      assert es[0..] == es;
    } else {
      SuffixRuns(Step(m, es[0]), es[1..], i - 1);
      SliceLater(es, i);
    }
  }

  lemma RunsFirst(m: State, es: seq<Event>)
    requires es != [] && Takes(m, es[0]) && Runs(Step(m, es[0]), es[1..])
    ensures Runs(m, es) && Run(m, es) == Run(Step(m, es[0]), es[1..])
  {
  }

  lemma SplitAt(m: State, es: seq<Event>, i: nat)
    requires Runs(m, es) && i <= |es|
    ensures Runs(m, es[..i]) && Run(m, es[..i]) == StateAt(m, es, i)
    ensures Runs(StateAt(m, es, i), es[i..]) && Run(StateAt(m, es, i), es[i..]) == Run(m, es)
  {
    PrefixRuns(m, es, i);
    SuffixRuns(m, es, i);
  }

  lemma StateAtFirst(m: State, es: seq<Event>, i: nat)
    requires Runs(m, es) && 0 < i <= |es|
    ensures Takes(m, es[0]) && Runs(Step(m, es[0]), es[1..])
    ensures StateAt(m, es, i) == StateAt(Step(m, es[0]), es[1..], i - 1)
  {
  }

  /** The state after event `i`, and the rest of the run from there. */
  lemma AfterEvent(m: State, es: seq<Event>, i: nat)
    requires Runs(m, es) && i < |es|
    ensures Takes(StateAt(m, es, i), es[i])
    ensures var next := Step(StateAt(m, es, i), es[i]);
      Runs(next, es[i + 1..]) && Run(next, es[i + 1..]) == Run(m, es)
  {
    SuffixRuns(m, es, i);
    assert es[i..][0] == es[i] && es[i..][1..] == es[i + 1..];
  }

  lemma {:induction false} RunGood(m: State, es: seq<Event>)
    requires Good(m) && Runs(m, es)
    ensures Good(Run(m, es))
    decreases es
  {
    if es == [] {
    } else {
      StepKeepsExactlyWhenAllowed(m, es[0]);
      RunGood(Step(m, es[0]), es[1..]);
    }
  }

  lemma GoodAt(m: State, es: seq<Event>, i: nat)
    requires Good(m) && Runs(m, es) && i <= |es|
    ensures Good(StateAt(m, es, i))
  {
    SplitAt(m, es, i);
    RunGood(m, es[..i]);
  }

  // ------------------------------------------------------------ last preemption

  /** A tick that takes the processor from a process of terminal `t`. */
  predicate Preempts(m: State, e: Event, t: int)
    requires 0 <= t < |m.stacks|
  {
    e.Tick? && m.running == t && |m.stacks[t]| > 0
  }

  ghost predicate NeverPreempted(m: State, es: seq<Event>, t: int)
    requires Runs(m, es) && 0 <= t < TERMINALS
    decreases es
  {
    es == [] || (!Preempts(m, es[0], t) && NeverPreempted(Step(m, es[0]), es[1..], t))
  }

  lemma OnlyFirstTickFindsNone(m: State)
    requires Good(m)
    ensures |m.stacks[m.running]| == 0 ==> m.firstExecute
  {
    if Started(m) > 0 { assert TerminalOk(m, m.running); }
  }

  /** Only a preemption takes the processor away. */
  lemma StepStaysOn(m: State, e: Event)
    requires Good(m) && Takes(m, e) && (e.Tick? ==> |m.stacks[m.running]| == 0)
    ensures Step(m, e).running == m.running
  {
    if e.Tick? {
      OnlyFirstTickFindsNone(m);
      TickClock(m, e);
    } else {
      OtherStepsKeepClock(m, e);
    }
  }

  lemma {:induction false} StaysOn(m: State, es: seq<Event>, t: int)
    requires Good(m) && Runs(m, es) && 0 <= t < TERMINALS && NeverPreempted(m, es, t) && m.running == t
    ensures Run(m, es).running == t
    decreases es
  {
    if es == [] {
    } else {
      StepStaysOn(m, es[0]);
      StepKeepsExactlyWhenAllowed(m, es[0]);
      StaysOn(Step(m, es[0]), es[1..], t);
    }
  }

  lemma {:induction false} StaysOff(m: State, es: seq<Event>, t: int)
    requires Good(m) && Runs(m, es) && 0 <= t < TERMINALS && NeverPreempted(m, es, t) && Run(m, es).running != t
    ensures OffCpu(m, es, t)
    decreases es
  {
    if m.running == t { StaysOn(m, es, t); }
    if es == [] {
    } else {
      StepKeepsExactlyWhenAllowed(m, es[0]);
      StaysOff(Step(m, es[0]), es[1..], t);
    }
  }

  /** Event `k` takes the processor from terminal `t`, and none after it does. */
  ghost predicate LastPreemption(m: State, es: seq<Event>, k: nat, t: int)
    requires Runs(m, es) && 0 <= t < TERMINALS
  {
    k < |es| &&
    var at := StateAt(m, es, k);
    Preempts(at, es[k], t) && NeverSince(Step(at, es[k]), es[k + 1..], t)
  }

  ghost predicate NeverSince(m: State, es: seq<Event>, t: int)
    requires 0 <= t < TERMINALS
  {
    Runs(m, es) && NeverPreempted(m, es, t)
  }

  lemma {:induction false} FindLast(m: State, es: seq<Event>, t: int) returns (k: int)
    requires Runs(m, es) && 0 <= t < TERMINALS
    ensures (k == -1 && NeverPreempted(m, es, t)) || (0 <= k < |es| && LastPreemption(m, es, k, t))
    decreases es
  {
    k := -1;
    if es == [] {
    } else {
      var rest := FindLast(Step(m, es[0]), es[1..], t);
      if rest >= 0 {
        k := rest + 1;
        LastLater(m, es, rest, t);
      } else if Preempts(m, es[0], t) {
        k := 0;
      }
    }
  }

  lemma LastLater(m: State, es: seq<Event>, k: nat, t: int)
    requires Runs(m, es) && es != [] && 0 <= t < TERMINALS && LastPreemption(Step(m, es[0]), es[1..], k, t)
    ensures LastPreemption(m, es, k + 1, t)
  {
    StateAtFirst(m, es, k + 1);
    SliceLater(es, k + 2);
    assert es[1..][k] == es[k + 1];
  }

  /** A terminal off the processor keeps the context of its last preemption, whatever has happened since. */
  lemma ContextIsOfLastPreemption(m: State, es: seq<Event>, k: nat, t: int)
    requires Good(m) && Runs(m, es) && 0 <= t < TERMINALS && LastPreemption(m, es, k, t) && Run(m, es).running != t
    ensures var at, end := StateAt(m, es, k), Run(m, es);
      && WellFormed(end) && end.stacks[t] == at.stacks[t] && |end.stacks[t]| > 0 && 0 <= Top(end, t) < SLOTS
      && SavedContext(end.pcbs[Top(end, t)]) == Context(es[k].frame, at.cr3, at.esp0)
  {
    var at := StateAt(m, es, k);
    GoodAt(m, es, k);
    AfterEvent(m, es, k);
    StepKeepsExactlyWhenAllowed(at, es[k]);
    PreemptionSaves(at, es[k]);
    OffFromThenOn(Step(at, es[k]), es[k + 1..], t);
  }

  lemma OffFromThenOn(m: State, es: seq<Event>, t: int)
    requires Good(m) && Runs(m, es) && 0 <= t < TERMINALS && NeverPreempted(m, es, t) && Run(m, es).running != t
    requires |m.stacks[t]| > 0
    ensures var end := Run(m, es);
      && WellFormed(end) && end.stacks[t] == m.stacks[t] && 0 <= Top(m, t) < SLOTS
      && end.pcbs[Top(end, t)] == m.pcbs[Top(m, t)]
  {
    StaysOff(m, es, t);
    RunOff(m, es, t);
    SameTop(m, Run(m, es), t);
  }

  lemma SameTop(m: State, m': State, t: int)
    requires WellFormed(m) && WellFormed(m') && 0 <= t < TERMINALS && SameTerminal(m, m', t) && |m.stacks[t]| > 0
    ensures m'.stacks[t] == m.stacks[t] && 0 <= Top(m, t) < SLOTS && m'.pcbs[Top(m', t)] == m.pcbs[Top(m, t)]
  {
    assert Top(m, t) == m.stacks[t][|m.stacks[t]| - 1];
  }

  lemma PreemptionSaves(m: State, e: Event)
    requires Good(m) && Takes(m, e) && e.Tick? && |m.stacks[m.running]| > 0 && WellFormed(Step(m, e))
    ensures var m', t := Step(m, e), m.running;
      && m'.stacks[t] == m.stacks[t] && 0 <= Top(m', t) < SLOTS
      && SavedContext(m'.pcbs[Top(m', t)]) == Context(e.frame, m.cr3, m.esp0)
  {
    TickSavesInterrupted(m, e);
    TickKeepsStack(m, e);
  }

  lemma TickKeepsStack(m: State, e: Event)
    requires Good(m) && Takes(m, e) && e.Tick? && |m.stacks[m.running]| > 0
    ensures Step(m, e).running != m.running
    ensures |Step(m, e).stacks| == TERMINALS && Step(m, e).stacks[m.running] == m.stacks[m.running]
  {
    TickClock(m, e);
  }

  /** From power-on a terminal that has a process and does not run has been preempted. */
  lemma OffMeansPreempted(m: State, es: seq<Event>, t: int) returns (k: int)
    requires Initial(m) && Runs(m, es) && 0 <= t < TERMINALS
    requires WellFormed(Run(m, es)) && Run(m, es).running != t && |Run(m, es).stacks[t]| > 0
    ensures 0 <= k < |es| && LastPreemption(m, es, k, t)
  {
    FromPowerOn(m, []);
    k := FindLast(m, es, t);
    if k == -1 {
      StaysOff(m, es, t);
      RunOff(m, es, t);
    }
  }

  /** A terminal always resumes with the frame, directory and kernel stack of the tick that last took
      the processor from it: over every run from power-on, for every tick that does not start a shell. */
  lemma ResumesWhereItWasPreempted(m: State, es: seq<Event>, tick: Event) returns (k: nat)
    requires Initial(m) && Runs(m, es) && tick.Tick? && Takes(Run(m, es), tick)
    requires var end, next := Run(m, es), Step(Run(m, es), tick).running;
      |end.stacks[end.running]| > 0 && 0 <= next < TERMINALS && |end.stacks[next]| > 0
    ensures var t := Step(Run(m, es), tick).running;
      && LastPreemption(m, es, k, t)
      && Loaded(Step(Run(m, es), tick)) == Context(es[k].frame, StateAt(m, es, k).cr3, StateAt(m, es, k).esp0)
  {
    FromPowerOn(m, es);
    FromPowerOn(m, []);
    var end := Run(m, es);
    TickLoadsSaved(end, tick);
    var t := Step(end, tick).running;
    k := OffMeansPreempted(m, es, t);
    ContextIsOfLastPreemption(m, es, k, t);
  }

  /** In particular the fourth tick puts terminal 0's shell back on the frame of the second. */
  lemma FourthTickRestoresSecond(m: State, es: seq<Event>, tick: Event) returns (k: nat)
    requires Initial(m) && Runs(m, es) && Ticks(es) == 3 && tick.Tick? && Takes(Run(m, es), tick)
    ensures k < |es| && es[k].Tick? && Ticks(es[..k]) == 1
    ensures Step(Run(m, es), tick).running == 0 && Step(Run(m, es), tick).regs == es[k].frame
  {
    FromPowerOn(m, es);
    var end := Run(m, es);
    assert TerminalOk(end, 0) && TerminalOk(end, end.running);
    TickClock(end, tick);
    k := ResumesWhereItWasPreempted(m, es, tick);
    SplitAt(m, es, k);
    FromPowerOn(m, es[..k]);
    FromPowerOn(m, []);
    RunClock(m, es[..k], 0);
    TicksSplit(es, k);
  }

  lemma {:induction false} TicksSplit(es: seq<Event>, k: nat)
    requires k <= |es|
    ensures Ticks(es) == Ticks(es[..k]) + Ticks(es[k..])
    decreases k
  {
    if k == 0 {
      assert es[0..] == es && es[..0] == [];
    } else {
      TicksSplit(es[1..], k - 1);
      assert es[1..][k - 1..] == es[k..] && es[..k][1..] == es[1..][..k - 1];
    }
  }
}
