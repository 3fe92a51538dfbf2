/**
 Slots and page tables together: which directory each step of the slot machine
 builds, and what user addresses mean in every reachable state.
 */
module AddressSpaces {
  import opened Slots
  import opened SlotInvariant
  import opened SlotRuns
  import Paging

  /** The slot a step launches a program in, and so calls `set_page` for; -1 for none. */
  ghost function LaunchedSlot(m: State, e: Event): int
    requires WellFormed(m) && Enabled(m, e)
  {
    match e
    case Execute(file, _, _) => if Launches(m, file) then FirstFree(m.stacks, 0) else -1
    case Tick(_, shell, _) =>
      if (m.firstExecute || (BootTick(m) && m.running < 2)) && Launches(m, shell) then FirstFree(m.stacks, 0) else -1
    case Halt(_, shell, _) => RestartSlot(m, shell)
    case Fault(shell, _) => RestartSlot(m, shell)
    case _ => -1
  }

  ghost function RestartSlot(m: State, shell: Lookup): int
    requires WellFormed(m) && |m.stacks[m.running]| > 0
  {
    if Top(m, m.running) < 3 && Launches(Pop(m), shell) then FirstFree(Pop(m).stacks, 0) else -1
  }

  /** The page tables after a step. */
  ghost function PagesAfter(m: State, p: Paging.Tables, e: Event): Paging.Tables
    requires WellFormed(m) && Enabled(m, e) && Paging.Ready(p)
  {
    var s := LaunchedSlot(m, e);
    if s >= 0 then Paging.SetPage(p, s)
    else if e.Vidmap? && InUserRange(e.screenStart) then Paging.SetPageVideo(p, Top(m, m.displayed), m.displayed)
    else p
  }

  /** Every live process has its directory. */
  ghost predicate Mapped(m: State, p: Paging.Tables) {
    Paging.Ready(p) && forall s :: 0 <= s < SLOTS && Used(m.stacks, s) ==> Paging.SlotDirectory(p, s)
  }

  lemma ExecuteUses(m: State, file: Lookup, arg: string, frame: Frame, s: int)
    requires WellFormed(m)
    ensures Used(Slots.Execute(m, file, arg, frame).stacks, s) ==>
      Used(m.stacks, s) || (Launches(m, file) && s == FirstFree(m.stacks, 0))
  {
    UsedAfterPush(m.stacks, m.running, FirstFree(m.stacks, 0));
  }

  lemma HaltUses(m: State, shell: Lookup, restart: Frame, s: int)
    requires WellFormed(m) && |m.stacks[m.running]| > 0
    ensures Used(Slots.Halt(m, shell, restart).stacks, s) ==>
      Used(m.stacks, s) || (s >= 0 && s == RestartSlot(m, shell))
  {
    PopWellFormed(m);
    ExecuteUses(Pop(m), shell, "", restart, s);
  }

  lemma TickUses(m: State, e: Event, s: int)
    requires WellFormed(m) && e.Tick? && Enabled(m, e)
    ensures Used(Step(m, e).stacks, s) ==> Used(m.stacks, s) || (s >= 0 && s == LaunchedSlot(m, e))
  {
    if FirstShellStarts(m, e.shell) {
      ExecuteUses(m.(firstExecute := false), e.shell, "", e.launch, s);
    } else if BootTick(m) && m.running < 2 {
      var m1 := if m.firstExecute then m.(firstExecute := false, exceptionFlag := false) else m;
      var saved := SaveInto(m1, m.stacks[m.running][0], e.frame).(flag := false, running := m.running + 1);
      ExecuteUses(saved, e.shell, "", e.launch, s);
    }
  }

  /** A step brings no slot to life but the one it launches. */
  lemma OnlyLaunchedIsNew(m: State, e: Event, s: int)
    requires WellFormed(m) && Enabled(m, e)
    ensures Used(Step(m, e).stacks, s) ==> Used(m.stacks, s) || (s >= 0 && s == LaunchedSlot(m, e))
  {
    match e
    case Tick(_, _, _) => TickUses(m, e, s);
    case Execute(file, arg, f) => ExecuteUses(m, file, arg, f, s);
    case Halt(_, sh, r) => HaltUses(m, sh, r, s);
    case Fault(sh, r) => HaltUses(m.(exceptionFlag := true), sh, r, s);
    case _ =>
  }

  lemma StepMapped(m: State, p: Paging.Tables, e: Event)
    requires Good(m) && Takes(m, e) && Mapped(m, p)
    ensures Mapped(Step(m, e), PagesAfter(m, p, e))
  {
    var launched := LaunchedSlot(m, e);
    if launched >= 0 {
      Paging.SetPageKeeps(p, launched);
    } else if e.Vidmap? && InUserRange(e.screenStart) {
      Paging.SetPageVideoKeeps(p, Top(m, m.displayed), m.displayed);
    }
    forall s | 0 <= s < SLOTS && Used(Step(m, e).stacks, s)
      ensures Paging.SlotDirectory(PagesAfter(m, p, e), s)
    {
      OnlyLaunchedIsNew(m, e, s);
    }
  }

  ghost function RunPages(m: State, p: Paging.Tables, es: seq<Event>): Paging.Tables
    requires Good(m) && Runs(m, es) && Mapped(m, p)
    decreases es
  {
    if es == [] then p
    else
      StepKeepsExactlyWhenAllowed(m, es[0]);
      StepMapped(m, p, es[0]);
      RunPages(Step(m, es[0]), PagesAfter(m, p, es[0]), es[1..])
  }

  lemma {:induction false} RunMapped(m: State, p: Paging.Tables, es: seq<Event>)
    requires Good(m) && Runs(m, es) && Mapped(m, p)
    ensures Good(Run(m, es)) && Mapped(Run(m, es), RunPages(m, p, es))
    decreases es
  {
    if es == [] {
    } else {
      StepKeepsExactlyWhenAllowed(m, es[0]);
      StepMapped(m, p, es[0]);
      RunMapped(Step(m, es[0]), PagesAfter(m, p, es[0]), es[1..]);
    }
  }

  /** In every state any run from power-on reaches: user addresses under the loaded directory are the
      running process's own frame, and no other live process has a byte of that frame. */
  lemma UserMemoryFromPowerOn(m: State, p: Paging.Tables, es: seq<Event>, va: nat)
    requires Initial(m) && Runs(m, es) && Ticks(es) > 0 && Paging.Ready(p)
    requires Paging.USER_START <= va < Paging.USER_END
    ensures Good(m) && Mapped(m, p)
    ensures var m', p' := Run(m, es), RunPages(m, p, es);
      && WellFormed(m') && |m'.stacks[m'.running]| > 0 && Paging.Ready(p')
      && var s := Top(m', m'.running);
      && 0 <= m'.cr3 < Paging.DIRECTORIES
      && Paging.Translate(p', m'.cr3, va) == Paging.Frame(EIGHT_MB + s * 0x400000 + (va - Paging.USER_START), true)
      && forall r, vb: nat ::
           0 <= r < SLOTS && r != s && Used(m'.stacks, r) && Paging.USER_START <= vb < Paging.USER_END ==>
           var other := Paging.Translate(p', DirOf(r), vb);
           other.Frame? && other.address != Paging.Translate(p', m'.cr3, va).address
  {
    FromPowerOn(m, []);
    assert Mapped(m, p);
    RunMapped(m, p, es);
    FromPowerOn(m, es);
    var m', p' := Run(m, es), RunPages(m, p, es);
    LiveAddressSpace(m', p', va);
  }

  /** User address `va` is in the user range, and `pa` the same offset into slot `s`'s frame. */
  predicate InOwnFrame(s: int, va: int, pa: int) {
    Paging.USER_START <= va < Paging.USER_END && pa == EIGHT_MB + s * 0x400000 + (va - Paging.USER_START)
  }

  /** `va` is in the three pages from VID_MAP, and `pa` the same offset into the backup screens. */
  predicate InBackupScreens(va: int, pa: int) {
    && Paging.VID_MAP <= va < Paging.VID_MAP + 3 * 0x1000
    && pa == Paging.VIDEO + Paging.FOUR_KB + (va - Paging.VID_MAP)
  }

  /** In every such state user mode reaches, through the loaded directory, the running process's own
      frame and the three backup screens only; the kernel's 8 MB are identity mapped and closed to it. */
  lemma UserReachFromPowerOn(m: State, p: Paging.Tables, es: seq<Event>, va: nat)
    requires Initial(m) && Runs(m, es) && Ticks(es) > 0 && Paging.Ready(p) && va < 0x1_0000_0000
    ensures Good(m) && Mapped(m, p)
    ensures var m', p' := Run(m, es), RunPages(m, p, es);
      && WellFormed(m') && |m'.stacks[m'.running]| > 0 && Paging.Ready(p')
      && 0 <= m'.cr3 < Paging.DIRECTORIES
      && var w := Paging.Translate(p', m'.cr3, va);
      && (va < EIGHT_MB ==> w == Paging.Frame(va, false))
      && (w.Frame? && w.user ==>
            || InOwnFrame(Top(m', m'.running), va, w.address) || InBackupScreens(va, w.address))
  {
    FromPowerOn(m, []);
    assert Mapped(m, p);
    RunMapped(m, p, es);
    FromPowerOn(m, es);
    ReachOfRunning(Run(m, es), RunPages(m, p, es), va);
  }

  lemma ReachOfRunning(m: State, p: Paging.Tables, va: nat)
    requires Good(m) && Started(m) > 0 && Mapped(m, p) && va < 0x1_0000_0000
    ensures |m.stacks[m.running]| > 0 && 0 <= m.cr3 < Paging.DIRECTORIES
    ensures var w := Paging.Translate(p, m.cr3, va);
      && (va < EIGHT_MB ==> w == Paging.Frame(va, false))
      && (w.Frame? && w.user ==>
            || InOwnFrame(Top(m, m.running), va, w.address) || InBackupScreens(va, w.address))
  {
    OnlyTopIsTop(m);
    var s := Top(m, m.running);
    assert s == m.stacks[m.running][|m.stacks[m.running]| - 1];
    assert Paging.SlotDirectory(p, s) && m.cr3 == s + 1;
    var w := Paging.Translate(p, m.cr3, va);
    if va < EIGHT_MB { Paging.KernelIsIdentity(p, s + 1, va); }
    if w.Frame? && w.user { Paging.UserReach(p, s, va); }
  }

  lemma LiveAddressSpace(m: State, p: Paging.Tables, va: nat)
    requires Good(m) && Started(m) > 0 && Mapped(m, p) && Paging.USER_START <= va < Paging.USER_END
    ensures |m.stacks[m.running]| > 0 && m.cr3 == DirOf(Top(m, m.running))
    ensures Paging.Translate(p, m.cr3, va)
      == Paging.Frame(EIGHT_MB + Top(m, m.running) * 0x400000 + (va - Paging.USER_START), true)
    ensures forall r, vb: nat ::
      0 <= r < SLOTS && r != Top(m, m.running) && Used(m.stacks, r) && Paging.USER_START <= vb < Paging.USER_END ==>
        var other := Paging.Translate(p, DirOf(r), vb);
        other.Frame? && other.address != Paging.Translate(p, m.cr3, va).address
  {
    OnlyTopIsTop(m);
    var s := Top(m, m.running);
    assert s == m.stacks[m.running][|m.stacks[m.running]| - 1];
    Paging.UserRange(p, s, va);
    forall r, vb: nat | 0 <= r < SLOTS && r != s && Used(m.stacks, r) && Paging.USER_START <= vb < Paging.USER_END
      ensures Paging.Translate(p, DirOf(r), vb).Frame?
      ensures Paging.Translate(p, DirOf(r), vb).address != Paging.Translate(p, m.cr3, va).address
    {
      Paging.SlotsAreIsolated(p, r, s, vb, va);
    }
  }

  lemma RunningDirectory(m: State, p: Paging.Tables)
    requires Good(m) && Started(m) > 0 && Mapped(m, p)
    ensures |m.stacks[m.running]| > 0 && m.cr3 == DirOf(Top(m, m.running)) && 0 <= Top(m, m.running) < SLOTS
    ensures Paging.SlotDirectory(p, Top(m, m.running))
  {
    OnlyTopIsTop(m);
    assert Top(m, m.running) == m.stacks[m.running][|m.stacks[m.running]| - 1];
  }

  /** The running process and the backup screen of terminal `t`, in one state. */
  lemma RunningScreen(m: State, p: Paging.Tables, t: int, off: nat)
    requires Good(m) && Started(m) > 0 && Mapped(m, p) && 0 <= t < TERMINALS && off < Paging.FOUR_KB
    ensures |m.stacks[m.running]| > 0 && m.cr3 == DirOf(Top(m, m.running)) && 0 <= Top(m, m.running) < SLOTS
    ensures Paging.Translate(p, m.cr3, Paging.VID_MAP + 0x1000 * t + off) ==
      if p.dirs[m.cr3][34] != 0 && p.one[t + 1] != 0
      then Paging.Frame(Paging.VIDEO + (t + 1) * 0x1000 + off, true) else Paging.Fault
  {
    RunningDirectory(m, p);
    Paging.VidmapAddress(p, Top(m, m.running), t, off);
  }

  // ------------------------------------------ who reaches the backup screens

  /** A run of steps that have their callers, kept the invariant or not. */
  ghost predicate CanRun(m: State, es: seq<Event>)
    decreases es
  {
    WellFormed(m) && (es == [] || (Enabled(m, es[0]) && CanRun(Step(m, es[0]), es[1..])))
  }

  /** The state in which event `i` of such a run happens. */
  ghost function Stage(m: State, es: seq<Event>, i: nat): (r: State)
    requires CanRun(m, es) && i <= |es|
    ensures WellFormed(r) && (i < |es| ==> Enabled(r, es[i]))
    decreases i
  {
    if i == 0 then m else Stage(Step(m, es[0]), es[1..], i - 1)
  }

  /** The page tables at its end. */
  ghost function PagesEnd(m: State, p: Paging.Tables, es: seq<Event>): (q: Paging.Tables)
    requires CanRun(m, es) && Paging.Ready(p)
    ensures Paging.Ready(q)
    decreases es
  {
    if es == [] then p
    else
      StepReady(m, p, es[0]);
      PagesEnd(Step(m, es[0]), PagesAfter(m, p, es[0]), es[1..])
  }

  lemma StepReady(m: State, p: Paging.Tables, e: Event)
    requires WellFormed(m) && Enabled(m, e) && Paging.Ready(p)
    ensures Paging.Ready(PagesAfter(m, p, e))
  {
    var launched := LaunchedSlot(m, e);
    if launched >= 0 {
      Paging.SetPageKeeps(p, launched);
    } else if e.Vidmap? && InUserRange(e.screenStart) {
      Paging.SetPageVideoKeeps(p, Top(m, m.displayed), m.displayed);
    }
  }

  /** No enabled step breaks well-formedness, so nothing but callers limits such runs. */
  lemma EnabledKeepsWellFormed(m: State, e: Event)
    requires WellFormed(m) && Enabled(m, e)
    ensures WellFormed(Step(m, e))
  {
    match e
    case Tick(f, sh, l) => TickWellFormed(m, f, sh, l);
    case Execute(file, arg, f) => ExecuteWellFormed(m, file, arg, f);
    case Halt(_, sh, r) => HaltWellFormed(m, sh, r);
    case Fault(sh, r) => HaltWellFormed(m.(exceptionFlag := true), sh, r);
    case _ =>
  }

  lemma ExecuteWellFormed(m: State, file: Lookup, arg: string, frame: Frame)
    requires WellFormed(m)
    ensures WellFormed(Slots.Execute(m, file, arg, frame))
  {
    if Launches(m, file) {
      LaunchWellFormed(m.(exceptionFlag := false), FirstFree(m.stacks, 0), arg, frame);
    }
  }

  lemma HaltWellFormed(m: State, shell: Lookup, restart: Frame)
    requires WellFormed(m) && |m.stacks[m.running]| > 0
    ensures WellFormed(Slots.Halt(m, shell, restart))
  {
    PopWellFormed(m);
    ExecuteWellFormed(Pop(m), shell, "", restart);
  }

  lemma TickWellFormed(m: State, frame: Frame, shell: Lookup, launch: Frame)
    requires WellFormed(m) && TickSafe(m, shell)
    ensures WellFormed(Slots.Tick(m, frame, shell, launch))
  {
    if FirstShellStarts(m, shell) {
      ExecuteWellFormed(m.(firstExecute := false), shell, "", launch);
    } else if m.firstExecute {
      SwitchWellFormed(m.(firstExecute := false, exceptionFlag := false), frame, shell, launch);
    } else {
      SwitchWellFormed(m, frame, shell, launch);
    }
  }

  lemma SwitchWellFormed(m: State, frame: Frame, shell: Lookup, launch: Frame)
    requires WellFormed(m) && |m.stacks[m.running]| > 0
    requires BootTick(m) || |m.stacks[(m.running + 1) % 3]| > 0
    ensures WellFormed(Slots.Switch(m, frame, shell, launch))
  {
    if BootTick(m) && m.running < 2 {
      var saved := SaveInto(m.(flag := false), m.stacks[m.running][0], frame);
      ExecuteWellFormed(saved.(running := m.running + 1), shell, "", launch);
    }
  }

  /** Event `i` is a `vidmap` made while slot `s` is on top of the displayed terminal. */
  ghost predicate MapsSlotAt(m: State, es: seq<Event>, i: nat, s: int)
    requires CanRun(m, es) && i < |es|
  {
    var at := Stage(m, es, i);
    es[i].Vidmap? && InUserRange(es[i].screenStart) && Top(at, at.displayed) == s
  }

  /** Event `i` is a `vidmap` made while terminal `t` is on display. */
  ghost predicate MapsScreenAt(m: State, es: seq<Event>, i: nat, t: int)
    requires CanRun(m, es) && i < |es|
  {
    es[i].Vidmap? && InUserRange(es[i].screenStart) && Stage(m, es, i).displayed == t
  }

  ghost predicate SlotMapped(m: State, es: seq<Event>, s: int)
    requires CanRun(m, es)
  {
    exists i :: 0 <= i < |es| && MapsSlotAt(m, es, i, s)
  }

  ghost predicate ScreenMapped(m: State, es: seq<Event>, t: int)
    requires CanRun(m, es)
  {
    exists i :: 0 <= i < |es| && MapsScreenAt(m, es, i, t)
  }

  lemma MappedLater(m: State, es: seq<Event>, s: int, t: int)
    requires CanRun(m, es) && es != []
    ensures SlotMapped(m, es, s) <==> MapsSlotAt(m, es, 0, s) || SlotMapped(Step(m, es[0]), es[1..], s)
    ensures ScreenMapped(m, es, t) <==> MapsScreenAt(m, es, 0, t) || ScreenMapped(Step(m, es[0]), es[1..], t)
  {
    var m1, rest := Step(m, es[0]), es[1..];
    forall i: nat | i < |rest|
      ensures MapsSlotAt(m, es, i + 1, s) <==> MapsSlotAt(m1, rest, i, s)
      ensures MapsScreenAt(m, es, i + 1, t) <==> MapsScreenAt(m1, rest, i, t)
    {
    }
    if i: nat :| 0 < i < |es| && MapsSlotAt(m, es, i, s) { assert MapsSlotAt(m1, rest, i - 1, s); }
    if i: nat :| 0 < i < |es| && MapsScreenAt(m, es, i, t) { assert MapsScreenAt(m1, rest, i - 1, t); }
  }

  lemma StepScreens(m: State, p: Paging.Tables, e: Event, s: int, t: int)
    requires WellFormed(m) && Enabled(m, e) && Paging.Ready(p) && 0 <= s < SLOTS && 0 <= t < TERMINALS
    ensures var maps := e.Vidmap? && InUserRange(e.screenStart);
      && (PagesAfter(m, p, e).dirs[s + 1][34] != 0 <==> p.dirs[s + 1][34] != 0 || (maps && Top(m, m.displayed) == s))
      && (PagesAfter(m, p, e).one[t + 1] != 0 <==> p.one[t + 1] != 0 || (maps && m.displayed == t))
  {
    var launched := LaunchedSlot(m, e);
    if launched >= 0 {
      Paging.ScreenEntries(p, launched, 0, s, t);
    } else if e.Vidmap? && InUserRange(e.screenStart) {
      Paging.ScreenEntries(p, Top(m, m.displayed), m.displayed, s, t);
    }
  }

  lemma {:induction false} RunScreens(m: State, p: Paging.Tables, es: seq<Event>, s: int, t: int)
    requires CanRun(m, es) && Paging.Ready(p) && 0 <= s < SLOTS && 0 <= t < TERMINALS
    ensures PagesEnd(m, p, es).dirs[s + 1][34] != 0 <==> p.dirs[s + 1][34] != 0 || SlotMapped(m, es, s)
    ensures PagesEnd(m, p, es).one[t + 1] != 0 <==> p.one[t + 1] != 0 || ScreenMapped(m, es, t)
    decreases es
  {
    if es == [] {
    } else {
      StepReady(m, p, es[0]);
      StepScreens(m, p, es[0], s, t);
      RunScreens(Step(m, es[0]), PagesAfter(m, p, es[0]), es[1..], s, t);
      MappedLater(m, es, s, t);
    }
  }

  /** No slot has entry 34 yet, and the table behind it is empty: what the kernel starts with. */
  ghost predicate ScreensClosed(p: Paging.Tables)
    requires Paging.Ready(p)
  {
    && (forall d :: 1 <= d < Paging.DIRECTORIES ==> p.dirs[d][34] == 0)
    && forall j :: 0 <= j < Paging.ENTRIES ==> p.one[j] == 0
  }

  /** Over every run: the process in slot `s` reaches the backup screen of terminal `t` exactly when
      some `vidmap` was made while that slot was on top of the displayed terminal, by whomever and for
      whichever owner, and some `vidmap` while terminal `t` was on display.  Neither halt nor a new
      launch closes the screens again. */
  lemma ScreensReachedExactly(m: State, p: Paging.Tables, es: seq<Event>, s: int, t: int, off: nat)
    requires CanRun(m, es) && Paging.Ready(p) && ScreensClosed(p)
    requires 0 <= s < SLOTS && 0 <= t < TERMINALS && off < Paging.FOUR_KB
    requires Paging.SlotDirectory(PagesEnd(m, p, es), s)
    ensures Paging.Translate(PagesEnd(m, p, es), DirOf(s), Paging.VID_MAP + 0x1000 * t + off) ==
      if SlotMapped(m, es, s) && ScreenMapped(m, es, t)
      then Paging.Frame(Paging.VIDEO + (t + 1) * 0x1000 + off, true) else Paging.Fault
  {
    RunScreens(m, p, es, s, t);
    Paging.VidmapAddress(PagesEnd(m, p, es), s, t, off);
  }

  lemma {:induction false} RunsCanRun(m: State, p: Paging.Tables, es: seq<Event>)
    requires Good(m) && Runs(m, es) && Mapped(m, p)
    ensures CanRun(m, es) && PagesEnd(m, p, es) == RunPages(m, p, es)
    decreases es
  {
    if es == [] {
    } else {
      StepKeepsExactlyWhenAllowed(m, es[0]);
      StepMapped(m, p, es[0]);
      RunsCanRun(Step(m, es[0]), PagesAfter(m, p, es[0]), es[1..]);
    }
  }

  /** From power-on over allowed runs the directory in question is the loaded one. */
  lemma RunningReachesExactly(m: State, p: Paging.Tables, es: seq<Event>, t: int, off: nat)
    requires Initial(m) && Runs(m, es) && Ticks(es) > 0 && 0 <= t < TERMINALS && off < Paging.FOUR_KB
    requires Paging.Ready(p) && ScreensClosed(p)
    ensures Good(m) && Mapped(m, p) && CanRun(m, es)
    ensures var m', p' := Run(m, es), RunPages(m, p, es);
      && WellFormed(m') && |m'.stacks[m'.running]| > 0 && Paging.Ready(p') && 0 <= m'.cr3 < Paging.DIRECTORIES
      && Paging.Translate(p', m'.cr3, Paging.VID_MAP + 0x1000 * t + off) ==
           if SlotMapped(m, es, Top(m', m'.running)) && ScreenMapped(m, es, t)
           then Paging.Frame(Paging.VIDEO + (t + 1) * 0x1000 + off, true) else Paging.Fault
  {
    FromPowerOn(m, []);
    assert Mapped(m, p);
    FromPowerOn(m, es);
    RunMapped(m, p, es);
    RunsCanRun(m, p, es);
    var m' := Run(m, es);
    RunningDirectory(m', RunPages(m, p, es));
    ScreensReachedExactly(m, p, es, Top(m', m'.running), t, off);
  }

  /** Why "whomever": a `vidmap` made off display opens the displayed terminal's screen to the process
      on top there, which has not called it, and not to the caller. */
  lemma OffDisplayOpensForTheOther(m: State, p: Paging.Tables, start: int, off: nat)
    requires Good(m) && Mapped(m, p) && m.displayed != m.running && InUserRange(start) && off < Paging.FOUR_KB
    requires |m.stacks[m.running]| > 0 && |m.stacks[m.displayed]| > 0 && ScreensClosed(p)
    ensures 0 <= Top(m, m.running) < SLOTS && 0 <= Top(m, m.displayed) < SLOTS && Enabled(m, Vidmap(start))
    ensures var p', va := PagesAfter(m, p, Vidmap(start)), Paging.VID_MAP + 0x1000 * m.displayed + off;
      && Paging.Translate(p, DirOf(Top(m, m.displayed)), va) == Paging.Fault
      && Paging.Ready(p')
      && Paging.Translate(p', DirOf(Top(m, m.displayed)), va)
           == Paging.Frame(Paging.VIDEO + (m.displayed + 1) * 0x1000 + off, true)
      && Paging.Translate(p', DirOf(Top(m, m.running)), va) == Paging.Fault
  {
    OnlyTopIsTop(m);
    var s, d := Top(m, m.running), Top(m, m.displayed);
    assert s == m.stacks[m.running][|m.stacks[m.running]| - 1];
    assert d == m.stacks[m.displayed][|m.stacks[m.displayed]| - 1] != s;
    Paging.OpensOnlyFor(p, d, s, m.displayed, off);
  }

  /** The case that surprises: a program calls `vidmap` and halts, and the next program in its slot
      reaches the screen although it never called it. */
  lemma ScreensOutliveTheirOwner(m: State, p: Paging.Tables, vidmap: Event, halt: Event, call: Event, off: nat)
    requires Steady(m) && Mapped(m, p) && m.displayed == m.running && |m.stacks[m.running]| > 1
    requires FirstFree(Pop(m).stacks, 0) == Top(m, m.running) && off < Paging.FOUR_KB
    requires vidmap.Vidmap? && InUserRange(vidmap.screenStart) && halt.Halt? && call.Execute? && call.file.Loadable?
    ensures Runs(m, [vidmap, halt, call])
    ensures var m', p' := Run(m, [vidmap, halt, call]), RunPages(m, p, [vidmap, halt, call]);
      && 0 <= m'.cr3 < Paging.DIRECTORIES && m'.cr3 == DirOf(Top(m, m.running)) && Paging.Ready(p')
      && Paging.Translate(p', m'.cr3, Paging.VID_MAP + 0x1000 * m.displayed + off)
           == Paging.Frame(Paging.VIDEO + (m.displayed + 1) * 0x1000 + off, true)
  {
    var es := [vidmap, halt, call];
    ReuseRuns(m, vidmap, halt, call);
    RunMapped(m, p, es);
    FirstVidmapStays(m, p, es);
    RunningScreen(Run(m, es), RunPages(m, p, es), m.displayed, off);
  }

  /** The two entries a `vidmap` writes are there for the rest of the run. */
  lemma FirstVidmapStays(m: State, p: Paging.Tables, es: seq<Event>)
    requires Good(m) && Runs(m, es) && Mapped(m, p) && es != [] && es[0].Vidmap? && InUserRange(es[0].screenStart)
    ensures 0 <= Top(m, m.displayed) < SLOTS && Paging.Ready(RunPages(m, p, es))
    ensures RunPages(m, p, es).dirs[Top(m, m.displayed) + 1][34] != 0 && RunPages(m, p, es).one[m.displayed + 1] != 0
  {
    RunsCanRun(m, p, es);
    assert Paging.Ready(PagesEnd(m, p, es));
    RunScreens(m, p, es, Top(m, m.displayed), m.displayed);
    assert MapsSlotAt(m, es, 0, Top(m, m.displayed)) && MapsScreenAt(m, es, 0, m.displayed);
  }

  /** The run in question: the third event claims the slot the second has freed. */
  lemma ReuseRuns(m: State, vidmap: Event, halt: Event, call: Event)
    requires Steady(m) && m.displayed == m.running && |m.stacks[m.running]| > 1
    requires FirstFree(Pop(m).stacks, 0) == Top(m, m.running)
    requires vidmap.Vidmap? && InUserRange(vidmap.screenStart) && halt.Halt? && call.Execute? && call.file.Loadable?
    ensures Runs(m, [vidmap, halt, call])
    ensures var m' := Run(m, [vidmap, halt, call]);
      && Steady(m') && Top(m', m'.running) == Top(m, m.running) && m'.cr3 == DirOf(Top(m, m.running))
  {
    StepKeepsExactlyWhenAllowed(m, vidmap);
    var m1 := Step(m, vidmap);
    HaltFrees(m1, halt);
    var m2 := Step(m1, halt);
    ReclaimsTop(m2, call, Top(m, m.running));
    ThreeSteps(m, vidmap, m1, halt, m2, call, Step(m2, call));
  }

  lemma HaltFrees(m: State, halt: Event)
    requires Steady(m) && halt.Halt? && |m.stacks[m.running]| > 1
    ensures Takes(m, halt) && Steady(Step(m, halt)) && Step(m, halt).stacks == Pop(m).stacks
  {
    StepKeepsExactlyWhenAllowed(m, halt);
    OtherOrTickKeepsFlag(m, halt);
    HaltPops(m, halt, Step(m, halt));
  }

  lemma ReclaimsTop(m: State, call: Event, s: int)
    requires Steady(m) && call.Execute? && call.file.Loadable? && FirstFree(m.stacks, 0) == s < SLOTS
    ensures Takes(m, call) && Steady(Step(m, call))
    ensures Top(Step(m, call), Step(m, call).running) == s && Step(m, call).cr3 == DirOf(s)
  {
    assert TerminalOk(m, m.running);
    CallPushes(m, call, Step(m, call));
  }

  lemma ThreeSteps(m: State, a: Event, m1: State, b: Event, m2: State, c: Event, m3: State)
    requires Takes(m, a) && m1 == Step(m, a) && Takes(m1, b) && m2 == Step(m1, b) && Takes(m2, c) && m3 == Step(m2, c)
    requires WellFormed(m3)
    ensures Runs(m, [a, b, c]) && Run(m, [a, b, c]) == m3
  {
    OneMore(m2, c, m3, []);
    assert [c] + [] == [c];
    OneMore(m1, b, m2, [c]);
    assert [b] + [c] == [b, c];
    OneMore(m, a, m1, [b, c]);
    assert [a] + [b, c] == [a, b, c];
  }

  lemma OneMore(m: State, e: Event, m1: State, es: seq<Event>)
    requires Takes(m, e) && m1 == Step(m, e) && Runs(m1, es)
    ensures Runs(m, [e] + es) && Run(m, [e] + es) == Run(m1, es)
  {
    var all := [e] + es;
    assert all[0] == e && all[1..] == es;
  }

  /** `vidmap` stores its result after the directory switch: into the displayed terminal's top process.
      That is the caller's variable exactly when the caller's terminal is on display. */
  lemma VidmapStoresForCallerExactly(m: State, p: Paging.Tables, start: int)
    requires Good(m) && Started(m) > 0 && Mapped(m, p) && |m.stacks[m.displayed]| > 0 && InUserRange(start)
    ensures |m.stacks[m.running]| > 0 && 0 <= m.cr3 < Paging.DIRECTORIES
    ensures var m', p' := Slots.Vidmap(m, start), PagesAfter(m, p, Vidmap(start));
      && 0 <= m'.cr3 < Paging.DIRECTORIES
      && var stored := Paging.Translate(p', m'.cr3, start);
      && stored.Frame? && stored.user && InOwnFrame(Top(m, m.displayed), start, stored.address)
      && (stored == Paging.Translate(p, m.cr3, start) <==> m.displayed == m.running)
  {
    OnlyTopIsTop(m);
    var s, d := Top(m, m.running), Top(m, m.displayed);
    assert s == m.stacks[m.running][|m.stacks[m.running]| - 1];
    assert d == m.stacks[m.displayed][|m.stacks[m.displayed]| - 1];
    Paging.SetPageVideoKeeps(p, d, m.displayed);
    Paging.UserRange(p, s, start);
    Paging.UserRange(PagesAfter(m, p, Vidmap(start)), d, start);
  }

  /** On the displayed terminal `vidmap` returns an address that reaches exactly that terminal's
      backup screen, and the loaded directory stays the caller's. */
  lemma VidmapReachesBackup(m: State, p: Paging.Tables, start: int, off: nat)
    requires InUserRange(start) && off < Paging.FOUR_KB
    requires Good(m) && Started(m) > 0 && Mapped(m, p) && m.displayed == m.running
    ensures |m.stacks[m.running]| > 0
    ensures var e := Vidmap(start);
      && Takes(m, e) && Step(m, e).cr3 == m.cr3
      && Paging.Translate(PagesAfter(m, p, e), m.cr3, Paging.VID_MAP + 0x1000 * m.displayed + off)
           == Paging.Frame(Paging.VIDEO + (m.displayed + 1) * 0x1000 + off, true)
  {
    var s := Top(m, m.displayed);
    Paging.SetPageVideoKeeps(p, s, m.displayed);
    Paging.VidmapAddress(Paging.SetPageVideo(p, s, m.displayed), s, m.displayed, off);
  }
}
