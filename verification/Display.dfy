/**
 The screen in video memory, the three backup screens and the mouse overlay, all
 updated in place (lib.c, mouse.c, terminal.c and the switch in keyboard.c).
 */
module Display {
  import opened Common
  import opened Console
  import ScreenRuns

  class Screens {
    const screen: array<Byte>          // 0xB8000, characters only
    const backups: seq<array<Byte>>    // terminals[t].video_mem
    const curX: array<int>             // terminals[t].screen_x
    const curY: array<int>
    var screenX: int                   // the static copies in lib.c
    var screenY: int
    var displayed: int                 // curr_terminal_idx
    var background: int                // temp_curr_running_terminal_idx
    var mouseX: int
    var mouseY: int

    ghost predicate Shape()
      reads `displayed, `mouseX, `mouseY
    {
      && screen.Length == CELLS && |backups| == 3 && curX.Length == 3 && curY.Length == 3 && curX != curY
      && screen !in backups && backups[0] != backups[1] && backups[0] != backups[2] && backups[1] != backups[2]
      && (forall t :: 0 <= t < 3 ==> backups[t].Length == CELLS)
      && 0 <= displayed < 3 && 0 <= mouseX < 80 && 0 <= mouseY < 25
    }

    ghost function Term(t: int): Terminal
      requires Shape() && 0 <= t < 3
      reads `displayed, `mouseX, `mouseY, backups[t], curX, curY
    {
      Terminal(backups[t][..], curX[t], curY[t])
    }

    ghost predicate Usable()
      reads `displayed, `mouseX, `mouseY, backups, curX, curY
    {
      Shape() && forall t :: 0 <= t < 3 ==> TerminalOk(Term(t))
    }

    function MouseCell(): int
      reads `mouseX, `mouseY
    {
      mouseY * 80 + mouseX
    }

    ghost function Terms(): (r: seq<Terminal>)
      requires Shape()
      reads `displayed, `mouseX, `mouseY, backups, curX, curY
      ensures |r| == 3 && forall t :: 0 <= t < 3 ==> r[t] == Term(t)
    {
      [Term(0), Term(1), Term(2)]
    }

    ghost function View(): (v: ScreenRuns.View)
      requires Usable()
      reads `displayed, `mouseX, `mouseY, screen, backups, curX, curY
      ensures ScreenRuns.ViewOk(v)
    {
      ScreenRuns.View(screen[..], Terms(), displayed, mouseX, mouseY)
    }

    ghost predicate SameOthers(before: seq<Terminal>, changed: int)
      requires Shape() && |before| == 3
      reads `displayed, `mouseX, `mouseY, backups, curX, curY
    {
      forall t :: 0 <= t < 3 && t != changed ==> Term(t) == before[t]
    }

    /** The displayed terminal is what the screen shows, up to the mouse. */
    ghost predicate Valid()
      reads `displayed, `mouseX, `mouseY, screen, backups, curX, curY
    {
      Usable() && Coherent(screen[..], backups[displayed][..], MouseCell())
    }

    constructor ()
      ensures Usable() && displayed == 0
      ensures fresh(screen) && fresh(curX) && fresh(curY) && forall b :: b in backups ==> fresh(b)
    {
      screen := new Byte[CELLS](_ => 0);
      var b0 := new Byte[CELLS](_ => 0);
      var b1 := new Byte[CELLS](_ => 0);
      var b2 := new Byte[CELLS](_ => 0);
      backups := [b0, b1, b2];
      curX := new int[3](_ => 0);
      curY := new int[3](_ => 0);
      screenX, screenY, displayed, background, mouseX, mouseY := 0, 0, 0, 0, 40, 13;
    }

    /** Makes the screen and the displayed terminal blank and coherent, whatever they were. */
    method Clear()
      requires Usable()
      modifies `screenX, `screenY, screen, backups[displayed], curX, curY
      ensures Valid() && Term(displayed) == CLEARED && screen[..] == CLEARED.cells
      ensures View() == ScreenRuns.After(old(View()), ScreenRuns.Clear)
    {
      ghost var before := Terms();
      var backup := backups[displayed];
      var i := 0;
      while i < ROWS * COLS
        invariant 0 <= i <= CELLS && curX[..] == old(curX[..]) && curY[..] == old(curY[..])
        invariant forall k :: 0 <= k < i ==> screen[k] == BLANK && backup[k] == BLANK
      {
        screen[i] := BLANK;
        backup[i] := BLANK;
        i := i + 1;
      }
      screenX, screenY := 0, 0;
      curX[displayed], curY[displayed] := 0, 0;
      assert Term(displayed).cells == CLEARED.cells;
      KeepOthers(before, displayed);
    }

    /** The scroll loop of `putc`: both copies move up one row in a single ascending pass. */
    method ScrollBoth()
      requires Usable()
      modifies screen, backups[displayed]
      ensures screen[..] == ScrolledScreen(old(screen[..]), old(backups[displayed][..]))
      ensures backups[displayed][..] == Scrolled(old(backups[displayed][..]))
    {
      var backup := backups[displayed];
      ghost var s0, b0 := screen[..], backup[..];
      var i := 0;
      while i < ROWS * COLS
        invariant 0 <= i <= CELLS
        invariant forall k :: 0 <= k < i ==> screen[k] == ScrolledCell(s0, b0, k) && backup[k] == Scrolled(b0)[k]
        invariant forall k :: i <= k < CELLS ==> screen[k] == s0[k] && backup[k] == b0[k]
      {
        if i > (ROWS - 1) * COLS - 1 {
          screen[i] := BLANK;
          backup[i] := BLANK;
        } else {
          if screen[i + COLS] != MOUSE {
            screen[i] := screen[i + COLS];
          } else {
            screen[i] := backup[i + COLS];
          }
          backup[i] := backup[i + COLS];
        }
        i := i + 1;
      }
    }

    /** The first part of `putc`: fetch the cursor, and scroll when the byte needs room. */
    method FetchAndScroll(c: Byte) returns (scrolled: bool)
      requires Usable()
      modifies `screenX, `screenY, screen, backups[displayed], curX, curY
      ensures Usable() && scrolled == Scrolls(old(Term(displayed)), c)
      ensures scrolled ==>
        && Term(displayed) == Terminal(Scrolled(old(Term(displayed)).cells), 0, 24)
        && screen[..] == ScrolledScreen(old(screen[..]), old(Term(displayed)).cells)
      ensures !scrolled ==> Term(displayed) == old(Term(displayed)) && screen[..] == old(screen[..])
      ensures screenX == curX[displayed] && screenY == curY[displayed] && SameOthers(old(Terms()), displayed)
    {
      var d := displayed;
      ghost var before := Terms();
      scrolled := false;
      screenX, screenY := curX[d], curY[d];
      if c != BACKSPACE && ((screenY == ROWS && screenX == 0) || (IsNewline(c) && screenY == ROWS - 1)) {
        scrolled := true;
        ScrollBoth();
        screenX, screenY := 0, ROWS - 1;
        curX[d], curY[d] := 0, ROWS - 1;
      }
      forall t | 0 <= t < 3 && t != d ensures Term(t) == before[t] {
        assert backups[t][..] == before[t].cells;
      }
      assert TerminalOk(Term(d));
    }

    /** The same character on the screen and in the backup, at the cursor. */
    method WriteBoth(ch: Byte)
      requires Shape() && 0 <= 80 * screenY + screenX < CELLS
      requires screenX == curX[displayed] && screenY == curY[displayed]
      modifies screen, backups[displayed]
      ensures screen[..] == old(screen[..])[80 * screenY + screenX := ch]
      ensures backups[displayed][..] == old(backups[displayed][..])[80 * screenY + screenX := ch]
    {
      screen[COLS * screenY + screenX] := ch;
      backups[displayed][COLS * curY[displayed] + curX[displayed]] := ch;
    }

    /** The backspace branch: one cell back, blanked, unless the cursor is at the top left. */
    method EraseBoth()
      requires Usable() && screenX == curX[displayed] && screenY == curY[displayed]
      modifies `screenX, `screenY, screen, backups[displayed], curX, curY
      ensures Usable() && Term(displayed) == Console.Putc(old(Term(displayed)), BACKSPACE)
      ensures screen[..] == Written(old(screen[..]), old(Term(displayed)), BACKSPACE)
      ensures SameOthers(old(Terms()), displayed)
    {
      ghost var before := Terms();
      var moved := BackBoth();
      if moved { WriteBoth(BLANK); }
      KeepOthers(before, displayed);
    }

    /** One cell back, to the end of the row above from column 0. */
    method BackBoth() returns (moved: bool)
      requires Usable() && screenX == curX[displayed] && screenY == curY[displayed]
      modifies `screenX, `screenY, curX, curY
      ensures Usable() && SameOthers(old(Terms()), displayed)
      ensures screenX == curX[displayed] && screenY == curY[displayed]
      ensures moved == (old(screenX) != 0 || old(screenY) != 0)
      ensures Term(displayed) == Terminal(old(Term(displayed)).cells,
        CursorAfter(old(Term(displayed)), BACKSPACE).0, CursorAfter(old(Term(displayed)), BACKSPACE).1)
    {
      var d := displayed;
      ghost var before := Terms();
      moved := true;
      if screenX != 0 {
        screenX, curX[d] := screenX - 1, curX[d] - 1;
      } else if screenY != 0 {
        screenX, screenY := COLS - 1, screenY - 1;
        curX[d], curY[d] := COLS - 1, curY[d] - 1;
      } else {
        moved := false;
      }
      KeepOthers(before, d);
    }

    /** The end of the last branch: one column on after a write, and on to the next row at column 80. */
    method AdvanceBoth(written: bool)
      requires Usable() && screenX == curX[displayed] && screenY == curY[displayed] && curY[displayed] < 25
      modifies `screenX, `screenY, curX, curY
      ensures Usable() && SameOthers(old(Terms()), displayed)
      ensures Term(displayed).cells == old(Term(displayed)).cells
      ensures (curX[displayed], curY[displayed]) ==
        if !written then (old(curX[displayed]), old(curY[displayed]))
        else if old(curX[displayed]) == 79 then (0, old(curY[displayed]) + 1)
        else (old(curX[displayed]) + 1, old(curY[displayed]))
    {
      var d := displayed;
      ghost var before := Terms();
      if written {
        screenX, curX[d] := screenX + 1, curX[d] + 1;
      }
      if screenX == COLS {
        screenY, curY[d] := screenY + 1, curY[d] + 1;
      }
      screenX, curX[d] := screenX % 80, curX[d] % 80;
      KeepOthers(before, d);
    }

    /** The last branch: print unless the byte was a newline, then advance. */
    method PrintBoth(c: Byte)
      requires Usable() && screenX == curX[displayed] && screenY == curY[displayed]
      requires c != BACKSPACE && curY[displayed] < 25
      modifies `screenX, `screenY, screen, backups[displayed], curX, curY
      ensures Usable() && SameOthers(old(Terms()), displayed)
      ensures Term(displayed) == if IsNewline(c) then old(Term(displayed)) else Console.Putc(old(Term(displayed)), c)
      ensures screen[..] == Written(old(screen[..]), old(Term(displayed)), c)
    {
      ghost var t0, before := Term(displayed), Terms();
      if !IsNewline(c) {
        WriteBoth(c);
        KeepOthers(before, displayed);
        assert Term(displayed) == Terminal(Written(t0.cells, t0, c), t0.x, t0.y);
      }
      AdvanceBoth(!IsNewline(c));
    }

    lemma KeepOthers(before: seq<Terminal>, d: int)
      requires Shape() && |before| == 3
      requires forall t :: 0 <= t < 3 && t != d ==>
        backups[t][..] == before[t].cells && curX[t] == before[t].x && curY[t] == before[t].y
      ensures SameOthers(before, d)
    {
    }

    method NextLine(t: int)
      requires Usable() && 0 <= t < 3 && curY[t] < 24
      modifies curX, curY
      ensures Usable() && SameOthers(old(Terms()), t)
      ensures Term(t) == Terminal(old(Term(t)).cells, 0, old(Term(t)).y + 1)
    {
      ghost var before := Terms();
      curX[t], curY[t] := 0, curY[t] + 1;
      assert TerminalOk(Term(t));
      KeepOthers(before, t);
    }

    /** The three branches of `putc`. */
    method PutcBoth(c: Byte)
      requires Usable()
      modifies `screenX, `screenY, screen, backups[displayed], curX, curY
      ensures Usable() && Term(displayed) == Console.Putc(old(Term(displayed)), c)
      ensures screen[..] == ScreenPutc(old(screen[..]), old(Term(displayed)), c)
      ensures SameOthers(old(Terms()), displayed)
    {
      var scrolled := FetchAndScroll(c);
      if IsNewline(c) && !scrolled {
        screenX, screenY := 0, screenY + 1;
        NextLine(displayed);
      } else if c == BACKSPACE {
        EraseBoth();
      } else {
        PrintBoth(c);
      }
    }

    method Putc(c: Byte)
      requires Usable()
      modifies `screenX, `screenY, screen, backups[displayed], curX, curY
      ensures Usable() && Term(displayed) == Console.Putc(old(Term(displayed)), c)
      ensures screen[..] == ScreenPutc(old(screen[..]), old(Term(displayed)), c)
      ensures old(Valid()) ==> Valid()
      ensures SameOthers(old(Terms()), displayed)
      ensures View() == ScreenRuns.After(old(View()), ScreenRuns.Put(c))
    {
      ghost var v := View();
      PutcBoth(c);
      ScreenRuns.OutputView(v, View(), displayed, screen[..], Term(displayed));
      if old(Valid()) {
        PutcKeepsCoherence(v.screen, v.terms[displayed], c, MouseCell());
      }
    }

    /** The scroll loop of `putc_background`. */
    method ScrollBackup(t: int)
      requires Usable() && 0 <= t < 3
      modifies backups[t]
      ensures backups[t][..] == Scrolled(old(backups[t][..]))
    {
      var backup := backups[t];
      ghost var b0 := backup[..];
      var i := 0;
      while i < ROWS * COLS
        invariant 0 <= i <= CELLS
        invariant forall k :: 0 <= k < i ==> backup[k] == Scrolled(b0)[k]
        invariant forall k :: i <= k < CELLS ==> backup[k] == b0[k]
      {
        if i > (ROWS - 1) * COLS - 1 {
          backup[i] := BLANK;
        } else {
          backup[i] := backup[i + COLS];
        }
        i := i + 1;
      }
    }

    /** The first part of `putc_background`: the static copies are fetched once and go stale. */
    method FetchAndScrollBackup(c: Byte) returns (scrolled: bool)
      requires Usable() && 0 <= background < 3
      modifies `screenX, `screenY, backups[background], curX, curY
      ensures Usable() && scrolled == Scrolls(old(Term(background)), c)
      ensures Term(background) ==
        if scrolled then Terminal(Scrolled(old(Term(background)).cells), 0, 24) else old(Term(background))
      ensures screenX == old(curX[background]) && screenY == old(curY[background])
      ensures SameOthers(old(Terms()), background)
    {
      var b := background;
      ghost var before := Terms();
      scrolled := false;
      screenX, screenY := curX[b], curY[b];
      if c != BACKSPACE && ((screenY == ROWS && screenX == 0) || (IsNewline(c) && screenY == ROWS - 1)) {
        scrolled := true;
        ScrollBackup(b);
        curX[b], curY[b] := 0, ROWS - 1;
      }
      forall t | 0 <= t < 3 && t != b ensures Term(t) == before[t] {
        assert backups[t][..] == before[t].cells;
      }
      assert TerminalOk(Term(b));
    }

    /** Its backspace branch: the tests use the stale copies, still equal to the cursor here. */
    method EraseBackup()
      requires Usable() && 0 <= background < 3 && screenX == curX[background] && screenY == curY[background]
      modifies backups[background], curX, curY
      ensures Usable() && Term(background) == Console.Putc(old(Term(background)), BACKSPACE)
      ensures SameOthers(old(Terms()), background)
    {
      var b := background;
      ghost var t0, before := Term(b), Terms();
      if screenX != 0 {
        curX[b] := curX[b] - 1;
        backups[b][COLS * curY[b] + curX[b]] := BLANK;
      } else if screenY != 0 {
        curX[b], curY[b] := COLS - 1, curY[b] - 1;
        backups[b][COLS * curY[b] + curX[b]] := BLANK;
      }
      assert Term(b) == Console.Putc(t0, BACKSPACE);
      KeepOthers(before, b);
    }

    /** Its last branch: `screenX` is the column before the write, so the row never advances. */
    method PrintBackup(c: Byte)
      requires Usable() && 0 <= background < 3 && c != BACKSPACE && curY[background] < 25
      modifies backups[background], curX, curY
      ensures SameOthers(old(Terms()), background)
      ensures screenX != COLS ==> Usable()
      ensures screenX != COLS ==>
        Term(background) ==
          (if IsNewline(c) then old(Term(background)) else Console.PutcBackground(old(Term(background)), c))
    {
      var b := background;
      ghost var t0, before := Term(b), Terms();
      if !IsNewline(c) {
        backups[b][COLS * curY[b] + curX[b]] := c;
        curX[b] := curX[b] + 1;
      }
      if screenX == COLS {
        curY[b] := curY[b] + 1;
      }
      curX[b] := curX[b] % 80;
      assert backups[b][..] == Written(t0.cells, t0, c);
      assert screenX != COLS ==> Term(b) == if IsNewline(c) then t0 else Console.PutcBackground(t0, c);
      KeepOthers(before, b);
    }

    /** The three branches of `putc_background`. */
    method PutcBackup(c: Byte)
      requires Usable() && 0 <= background < 3
      modifies `screenX, `screenY, backups[background], curX, curY
      ensures Usable() && Term(background) == Console.PutcBackground(old(Term(background)), c)
      ensures SameOthers(old(Terms()), background)
    {
      var scrolled := FetchAndScrollBackup(c);
      if IsNewline(c) && !scrolled {
        NextLine(background);
      } else if c == BACKSPACE {
        EraseBackup();
      } else {
        PrintBackup(c);
      }
    }

    /** Output of a process whose terminal is not on display. */
    method PutcBackground(c: Byte)
      requires Usable() && 0 <= background < 3
      modifies `screenX, `screenY, backups[background], curX, curY
      ensures Usable() && Term(background) == Console.PutcBackground(old(Term(background)), c)
      ensures old(Valid()) && background != displayed ==> Valid()
      ensures SameOthers(old(Terms()), background)
      ensures background != displayed ==> View() == ScreenRuns.After(old(View()), ScreenRuns.Background(background, c))
    {
      ghost var v := View();
      PutcBackup(c);
      if background != displayed {
        ScreenRuns.OutputView(v, View(), background, v.screen, Term(background));
      }
      assert background != displayed ==> Term(displayed) == v.terms[displayed];
    }

    /** memcpy of a backup to video memory. */
    method CopyToScreen(t: int)
      requires Shape() && 0 <= t < 3
      modifies screen
      ensures screen[..] == backups[t][..]
    {
      var i := 0;
      while i < CELLS
        invariant 0 <= i <= CELLS
        invariant forall k :: 0 <= k < i ==> screen[k] == backups[t][k]
      {
        screen[i] := backups[t][i];
        i := i + 1;
      }
    }

    /** Alt+F1..F3: the new terminal's backup comes up, without a mouse mark. */
    method SwitchTo(t: int)
      requires Usable() && 0 <= t < 3
      modifies `displayed, screen
      ensures Valid() && displayed == t && screen[..] == Term(t).cells
      ensures View() == ScreenRuns.After(old(View()), ScreenRuns.Switch(t))
    {
      ghost var before := Terms();
      displayed := t;
      CopyToScreen(displayed);
      KeepOthers(before, -1);
    }

    /** The tick's copy for a vidmap program on the displayed terminal: coherent again after any user writes. */
    method Refresh()
      requires Usable()
      modifies screen
      ensures Valid() && screen[..] == Term(displayed).cells
      ensures View() == ScreenRuns.After(old(View()), ScreenRuns.Refresh)
    {
      ghost var before := Terms();
      CopyToScreen(displayed);
      KeepOthers(before, -1);
    }

    /** A mouse packet: the old cell is repaired, the mark moves and is kept on the screen. */
    method MouseMove(flags: Byte, dx: Byte, dy: Byte)
      requires Usable()
      modifies `mouseX, `mouseY, screen
      ensures Usable() && screen[MouseCell()] == MOUSE
      ensures View() == ScreenRuns.After(old(View()), ScreenRuns.Mouse(flags, dx, dy))
      ensures old(Valid()) ==>
        Valid() && forall i :: 0 <= i < CELLS && i != MouseCell() ==> screen[i] == backups[displayed][i]
    {
      ghost var v := View();
      RepairCell();
      MoveMark(flags, dx, dy);
      screen[mouseY * 80 + mouseX] := MOUSE;
      assert View().terms == v.terms;
    }

    /** The character under the mark comes back from the backup. */
    method RepairCell()
      requires Shape()
      modifies screen
      ensures Shape() && screen[..] == old(screen[..])[MouseCell() := backups[displayed][MouseCell()]]
    {
      screen[mouseY * 80 + mouseX] := backups[displayed][mouseY * 80 + mouseX];
    }

    /** The movement of one packet, kept on the screen: past the right edge it lands in column 78. */
    method MoveMark(flags: Byte, dx: Byte, dy: Byte)
      requires Shape()
      modifies `mouseX, `mouseY
      ensures Shape()
      ensures mouseX == ScreenRuns.MovedX(old(mouseX), flags, dx) && mouseY == ScreenRuns.MovedY(old(mouseY), flags, dy)
    {
      var deltaX := if (flags / 16) % 2 == 1 then dx - 256 else dx;
      var deltaY := if (flags / 32) % 2 == 1 then dy - 256 else dy;
      var x := mouseX + ScreenRuns.TruncDiv(deltaX, 5);
      var y := mouseY - ScreenRuns.TruncDiv(deltaY, 10);
      if x > 79 { x := 78; } else if x < 0 { x := 0; }
      if y > 24 { y := 24; } else if y < 0 { y := 0; }
      mouseX, mouseY := x, y;
    }

    /** One character of terminal_write. */
    method WriteByte(c: Byte)
      requires Usable() && 0 <= background < 3
      modifies `screenX, `screenY, screen, backups[0], backups[1], backups[2], curX, curY
      ensures Usable() && (old(Valid()) ==> Valid()) && Terms() == Output(old(Terms()), displayed, background, [c])
      ensures displayed != background ==> screen[..] == old(screen[..])
    {
      ghost var before := Terms();
      if displayed == background {
        Putc(c);
      } else {
        PutcBackground(c);
      }
      OutputOne(before, displayed, background, c);
      assert Terms() == before[background := Term(background)];
    }

    /** terminal_write: foreground or background by the terminal that runs; 128 bytes bring an extra
        newline, always on the displayed terminal. */
    method TerminalWrite(buf: seq<Byte>, running: int) returns (n: int)
      requires Usable() && 0 <= running < 3
      modifies `screenX, `screenY, `background, screen, backups[0], backups[1], backups[2], curX, curY
      ensures Usable() && (old(Valid()) ==> Valid()) && n == |buf|
      ensures var written := Output(old(Terms()), displayed, running, buf);
        Terms() == if |buf| == 128 then Output(written, displayed, displayed, [10]) else written
      ensures displayed != running && |buf| != 128 ==> screen[..] == old(screen[..])
    {
      background := running;
      n := WriteBytes(buf);
      if n == 128 { BreakLine(); }
    }

    /** The newline after 128 bytes, on the displayed terminal whoever writes. */
    method BreakLine()
      requires Usable()
      modifies `screenX, `screenY, screen, backups[displayed], curX, curY
      ensures Usable() && (old(Valid()) ==> Valid()) && Terms() == Output(old(Terms()), displayed, displayed, [10])
    {
      ghost var before := Terms();
      Putc(10);
      OutputOne(before, displayed, displayed, 10);
      assert Terms() == before[displayed := Term(displayed)];
    }

    /** The loop of terminal_write. */
    method WriteBytes(buf: seq<Byte>) returns (n: int)
      requires Usable() && 0 <= background < 3
      modifies `screenX, `screenY, screen, backups[0], backups[1], backups[2], curX, curY
      ensures Usable() && (old(Valid()) ==> Valid()) && n == |buf|
      ensures Terms() == Output(old(Terms()), displayed, background, buf)
      ensures displayed != background ==> screen[..] == old(screen[..])
    {
      ghost var before := Terms();
      n := 0;
      while n < |buf|
        invariant 0 <= n <= |buf| && Usable() && (old(Valid()) ==> Valid())
        invariant Terms() == Output(before, displayed, background, buf[..n])
        invariant displayed != background ==> screen[..] == old(screen[..])
      {
        OutputSnoc(before, displayed, background, buf[..n], buf[n]);
        assert buf[..n + 1] == buf[..n] + [buf[n]];
        WriteByte(buf[n]);
        n := n + 1;
      }
      assert buf[..n] == buf;
    }
  }

  /** What a process on terminal `running` does to the three terminals when it writes `bytes`. */
  function Output(ts: seq<Terminal>, displayed: int, running: int, bytes: seq<Byte>): (r: seq<Terminal>)
    requires |ts| == 3 && 0 <= running < 3 && forall t :: 0 <= t < 3 ==> TerminalOk(ts[t])
    ensures |r| == 3 && forall t :: 0 <= t < 3 ==> TerminalOk(r[t])
  {
    ts[running := if displayed == running then PutcAll(ts[running], bytes) else PutcBackgroundAll(ts[running], bytes)]
  }

  lemma OutputOne(ts: seq<Terminal>, displayed: int, running: int, c: Byte)
    requires |ts| == 3 && 0 <= running < 3 && forall t :: 0 <= t < 3 ==> TerminalOk(ts[t])
    ensures Output(ts, displayed, running, [c]) ==
      ts[running := if displayed == running then Console.Putc(ts[running], c) else Console.PutcBackground(ts[running], c)]
  {
    var t := ts[running];
    assert [c][1..] == [];
    assert PutcAll(t, [c]) == PutcAll(Console.Putc(t, c), []);
    assert PutcBackgroundAll(t, [c]) == PutcBackgroundAll(Console.PutcBackground(t, c), []);
  }

  lemma OutputSnoc(ts: seq<Terminal>, displayed: int, running: int, bytes: seq<Byte>, c: Byte)
    requires |ts| == 3 && 0 <= running < 3 && forall t :: 0 <= t < 3 ==> TerminalOk(ts[t])
    ensures Output(ts, displayed, running, bytes + [c])
      == Output(Output(ts, displayed, running, bytes), displayed, running, [c])
  {
    PutcAllSnoc(ts[running], bytes, c);
    OutputOne(Output(ts, displayed, running, bytes), displayed, running, c);
  }

  /** A background process that writes exactly 128 bytes breaks the line of another terminal, the one
      on display; with any other count it leaves every terminal but its own alone.  The stray newline
      goes unseen only at the start of the last row of a screen that a scroll does not change. */
  lemma BackgroundWriteStaysHome(ts: seq<Terminal>, displayed: int, running: int, buf: seq<Byte>)
    requires |ts| == 3 && 0 <= running < 3 && 0 <= displayed < 3 && displayed != running
    requires forall t :: 0 <= t < 3 ==> TerminalOk(ts[t])
    ensures var written := Output(ts, displayed, running, buf);
      var after := if |buf| == 128 then Output(written, displayed, displayed, [10]) else written;
      && after[displayed] == (if |buf| == 128 then Console.Putc(ts[displayed], 10) else ts[displayed])
      && (after[displayed] == ts[displayed] <==>
            |buf| != 128
            || (ts[displayed].x == 0 && ts[displayed].y == 24 && Scrolled(ts[displayed].cells) == ts[displayed].cells))
      && forall t :: 0 <= t < 3 && t != displayed && t != running ==> after[t] == ts[t]
  {
    OutputOne(Output(ts, displayed, running, buf), displayed, displayed, 10);
  }
}
