/**
 One terminal as a 25 x 80 text screen (putc, putc_background and clear of lib.c),
 and the unbounded paper behind it.
 */
module Console {
  import opened Common

  const COLS := 80
  const ROWS := 25
  const CELLS := 2000
  const BLANK: Byte := 32
  const BACKSPACE: Byte := 8
  const MOUSE: Byte := 63  // '?'

  /** Backup characters and cursor of one terminal. */
  datatype Terminal = Terminal(cells: seq<Byte>, x: int, y: int)

  /** The cursor is on the screen, or at (row 25, column 0) with a scroll pending. */
  predicate TerminalOk(t: Terminal) {
    |t.cells| == CELLS && 0 <= t.x < 80 && 0 <= t.y <= 25 && (t.y == 25 ==> t.x == 0)
  }

  predicate IsNewline(c: Byte) { c == 10 || c == 13 }

  predicate Printing(c: Byte) { !IsNewline(c) && c != BACKSPACE }

  predicate Scrolls(t: Terminal, c: Byte) {
    c != BACKSPACE && ((t.y == 25 && t.x == 0) || (IsNewline(c) && t.y == 24))
  }

  function Blanks(n: nat): (r: seq<Byte>)
    ensures |r| == n && forall i :: 0 <= i < n ==> r[i] == BLANK
  {
    seq(n, _ => BLANK)
  }

  function Scrolled(cells: seq<Byte>): (r: seq<Byte>)
    requires |cells| == CELLS
    ensures |r| == CELLS
  {
    cells[80..] + Blanks(80)
  }

  /** The cell `c` is written to after any scroll; -1 when it writes none. */
  function Target(t: Terminal, c: Byte): int {
    if IsNewline(c) then -1
    else if c == BACKSPACE then (if t.x != 0 || t.y != 0 then 80 * t.y + t.x - 1 else -1)
    else if Scrolls(t, c) then 80 * 24
    else 80 * t.y + t.x
  }

  function Written(base: seq<Byte>, t: Terminal, c: Byte): (r: seq<Byte>)
    requires TerminalOk(t) && |base| == CELLS
    ensures |r| == CELLS
  {
    var i := Target(t, c);
    if i < 0 then base else base[i := if c == BACKSPACE then BLANK else c]
  }

  function CursorAfter(t: Terminal, c: Byte): (int, int) {
    if IsNewline(c) then (0, if Scrolls(t, c) then 24 else t.y + 1)
    else if c == BACKSPACE then
      if t.x != 0 then (t.x - 1, t.y) else if t.y != 0 then (79, t.y - 1) else (0, 0)
    else
      var (x, y) := if Scrolls(t, c) then (0, 24) else (t.x, t.y);
      if x == 79 then (0, y + 1) else (x + 1, y)
  }

  /** `putc` on the displayed terminal's backup and cursor. */
  function Putc(t: Terminal, c: Byte): (r: Terminal)
    requires TerminalOk(t)
    ensures TerminalOk(r)
  {
    var base := if Scrolls(t, c) then Scrolled(t.cells) else t.cells;
    var (x, y) := CursorAfter(t, c);
    Terminal(Written(base, t, c), x, y)
  }

  /** `putc_background`: the row test looks at the column before the character was written. */
  function PutcBackground(t: Terminal, c: Byte): (r: Terminal)
    requires TerminalOk(t)
    ensures TerminalOk(r)
  {
    if Printing(c) && t.x == 79 then Terminal(Written(t.cells, t, c), 0, t.y) else Putc(t, c)
  }

  /** The two output routines agree exactly off the one column where background output never advances. */
  lemma BackgroundAgreesExactly(t: Terminal, c: Byte)
    requires TerminalOk(t)
    ensures PutcBackground(t, c) == Putc(t, c) <==> !(Printing(c) && t.x == 79)
    ensures PutcBackground(t, c).cells == Putc(t, c).cells
  {
  }

  /** However much a background process prints, its cursor stays on the row it starts on: the row of
      the cursor, or the last one after the scroll a cursor at (25,0) still has to make. */
  lemma {:induction false} BackgroundNeverLeavesRow(t: Terminal, bytes: seq<Byte>)
    requires TerminalOk(t) && bytes != [] && forall i :: 0 <= i < |bytes| ==> Printing(bytes[i])
    ensures var r, row, base := PutcBackgroundAll(t, bytes), if t.y == 25 then 24 else t.y,
                                if t.y == 25 then Scrolled(t.cells) else t.cells;
      && r.y == row && r.x == (t.x + |bytes|) % 80
      && forall i :: 0 <= i < CELLS && i / 80 != row ==> r.cells[i] == base[i]
    decreases |bytes|
  {
    var t1, rest := PutcBackground(t, bytes[0]), bytes[1..];
    if rest == [] {
    } else {
      BackgroundNeverLeavesRow(t1, rest);
    }
  }

  function PutcAll(t: Terminal, bytes: seq<Byte>): (r: Terminal)
    requires TerminalOk(t)
    ensures TerminalOk(r)
    decreases |bytes|
  {
    if bytes == [] then t else PutcAll(Putc(t, bytes[0]), bytes[1..])
  }

  function PutcBackgroundAll(t: Terminal, bytes: seq<Byte>): (r: Terminal)
    requires TerminalOk(t)
    ensures TerminalOk(r)
    decreases |bytes|
  {
    if bytes == [] then t else PutcBackgroundAll(PutcBackground(t, bytes[0]), bytes[1..])
  }

  lemma {:induction false} PutcAllSnoc(t: Terminal, bytes: seq<Byte>, c: Byte)
    requires TerminalOk(t)
    ensures PutcAll(t, bytes + [c]) == Putc(PutcAll(t, bytes), c)
    ensures PutcBackgroundAll(t, bytes + [c]) == PutcBackground(PutcBackgroundAll(t, bytes), c)
    decreases |bytes|
  {
    if bytes == [] {
      assert [c][1..] == [];
    } else {
      assert (bytes + [c])[1..] == bytes[1..] + [c];
      PutcAllSnoc(Putc(t, bytes[0]), bytes[1..], c);
      PutcAllSnoc(PutcBackground(t, bytes[0]), bytes[1..], c);
    }
  }

  const CLEARED := Terminal(Blanks(CELLS), 0, 0)

  // -------------------------------------------------------------------- paper

  /** A typewriter on endless paper, 80 columns wide: everything typed, and the top row in view.  Byte 8
      takes a character back, 10 and 13 end the row, any other is typed. */
  datatype Paper = Paper(ink: seq<Byte>, top: nat)

  /** The next row's start after `n` characters. */
  function NextRow(n: nat): nat { (n / 80 + 1) * 80 }

  /** The view is full and waits to scroll. */
  predicate Pending(p: Paper) { |p.ink| == 80 * p.top + CELLS }

  function Type(p: Paper, c: Byte): Paper {
    if c == 8 then
      if |p.ink| > 80 * p.top then Paper(p.ink[..|p.ink| - 1], p.top) else p
    else
      var q := if Pending(p) then Paper(p.ink, p.top + 1) else p;
      if c != 10 && c != 13 then Paper(q.ink + [c], q.top)
      else if Pending(p) then q
      else
        var ink := p.ink + Blanks(NextRow(|p.ink|) - |p.ink|);
        Paper(ink, if |ink| == 80 * p.top + CELLS then p.top + 1 else p.top)
  }

  /** The screen is the 25 rows of paper from `top` on, blank from the cursor on, and the cursor is at
      the end of the ink. */
  ghost predicate Shows(t: Terminal, p: Paper) {
    && TerminalOk(t) && |p.ink| == 80 * p.top + 80 * t.y + t.x
    && forall k :: 0 <= k < CELLS ==>
         t.cells[k] == if 80 * p.top + k < |p.ink| then p.ink[80 * p.top + k] else 32
  }

  lemma ClearedShowsEmptyPaper()
    ensures Shows(CLEARED, Paper([], 0))
  {
  }

  lemma ScrollShows(t: Terminal, p: Paper)
    requires Shows(t, p) && t.y == 25
    ensures Shows(Terminal(Scrolled(t.cells), 0, 24), Paper(p.ink, p.top + 1))
  {
  }

  lemma PrintShows(t: Terminal, p: Paper, c: Byte)
    requires Shows(t, p) && Printing(c) && t.y < 25
    ensures Shows(Putc(t, c), Paper(p.ink + [c], p.top))
  {
  }

  lemma NextRowIs(n: nat, row: nat, x: nat)
    requires n == 80 * row + x && x < 80
    ensures NextRow(n) == 80 * row + 80
  {
  }

  lemma NewlineShows(t: Terminal, p: Paper, c: Byte)
    requires Shows(t, p) && IsNewline(c) && t.y < 25
    ensures Shows(Putc(t, c), Type(p, c))
  {
    var n := |p.ink|;
    NextRowIs(n, p.top + t.y, t.x);
    var ink := p.ink + Blanks(NextRow(n) - n);
    assert |ink| == 80 * p.top + 80 * (t.y + 1) && !Pending(p);
    assert Type(p, c) == Paper(ink, if t.y == 24 then p.top + 1 else p.top);
    assert Shows(Terminal(t.cells, 0, t.y + 1), Paper(ink, p.top));
    if t.y == 24 {
      ScrollShows(Terminal(t.cells, 0, 25), Paper(ink, p.top));
    }
  }

  /** `putc` refines the typewriter, byte by byte: printing, newlines, backspaces, scrolls. */
  lemma PutcRefinesPaper(t: Terminal, p: Paper, c: Byte)
    requires Shows(t, p)
    ensures Shows(Putc(t, c), Type(p, c))
  {
    if c == BACKSPACE {
    } else if t.y == 25 {
      ScrollShows(t, p);
      if Printing(c) {
        PrintShows(Terminal(Scrolled(t.cells), 0, 24), Paper(p.ink, p.top + 1), c);
      }
    } else if Printing(c) {
      PrintShows(t, p, c);
    } else {
      NewlineShows(t, p, c);
    }
  }

  function TypeAll(p: Paper, bytes: seq<Byte>): Paper
    decreases |bytes|
  {
    if bytes == [] then p else TypeAll(Type(p, bytes[0]), bytes[1..])
  }

  lemma {:induction false} PutcAllRefinesPaper(t: Terminal, p: Paper, bytes: seq<Byte>)
    requires Shows(t, p)
    ensures Shows(PutcAll(t, bytes), TypeAll(p, bytes))
    decreases |bytes|
  {
    if bytes == [] {
    } else {
      PutcRefinesPaper(t, p, bytes[0]);
      PutcAllRefinesPaper(Putc(t, bytes[0]), Type(p, bytes[0]), bytes[1..]);
    }
  }

  /** From `clear`, any byte string: the screen is a window on the paper typed so far. */
  lemma ScreenIsWindowOnPaper(bytes: seq<Byte>)
    ensures Shows(PutcAll(CLEARED, bytes), TypeAll(Paper([], 0), bytes))
  {
    ClearedShowsEmptyPaper();
    PutcAllRefinesPaper(CLEARED, Paper([], 0), bytes);
  }

  // --------------------------------------------------- what the paper contains

  /** The text laid out with no screen in mind: every newline ends its row. */
  function Layout(ink: seq<Byte>, bytes: seq<Byte>): seq<Byte>
    decreases |bytes|
  {
    if bytes == [] then ink
    else if IsNewline(bytes[0]) then Layout(ink + Blanks(NextRow(|ink|) - |ink|), bytes[1..])
    else Layout(ink + [bytes[0]], bytes[1..])
  }

  /** How many newlines arrive at (25,0), where the pending scroll swallows them. */
  function Absorbed(p: Paper, bytes: seq<Byte>): nat
    decreases |bytes|
  {
    if bytes == [] then 0
    else (if IsNewline(bytes[0]) && Pending(p) then 1 else 0) + Absorbed(Type(p, bytes[0]), bytes[1..])
  }

  lemma RowShift(n: nat, rows: nat)
    ensures NextRow(n + 80 * rows) == NextRow(n) + 80 * rows
  {
    assert (n + 80 * rows) / 80 == n / 80 + rows;
  }

  lemma {:induction false} LayoutLength(p: Paper, ink: seq<Byte>, rows: nat, bytes: seq<Byte>)
    requires |ink| == |p.ink| + 80 * rows && BACKSPACE !in bytes
    requires Pending(p) ==> |p.ink| % 80 == 0
    requires |p.ink| <= 80 * p.top + CELLS
    ensures |Layout(ink, bytes)| == |TypeAll(p, bytes).ink| + 80 * (rows + Absorbed(p, bytes))
    decreases |bytes|
  {
    if bytes == [] {
    } else {
      var c := bytes[0];
      RowShift(|p.ink|, rows);
      var rest := bytes[1..];
      assert forall b :: b in rest ==> b in bytes;
      if IsNewline(c) && Pending(p) {
        assert NextRow(|p.ink|) == |p.ink| + 80;
        LayoutLength(Type(p, c), ink + Blanks(NextRow(|ink|) - |ink|), rows + 1, rest);
      } else if IsNewline(c) {
        TypeNewlineFits(p, c);
        LayoutLength(Type(p, c), ink + Blanks(NextRow(|ink|) - |ink|), rows, rest);
      } else {
        LayoutLength(Type(p, c), ink + [c], rows, rest);
      }
    }
  }

  lemma TypeNewlineFits(p: Paper, c: Byte)
    requires IsNewline(c) && !Pending(p) && |p.ink| < 80 * p.top + CELLS
    ensures |Type(p, c).ink| == NextRow(|p.ink|) && |Type(p, c).ink| <= 80 * Type(p, c).top + CELLS
    ensures Pending(Type(p, c)) ==> |Type(p, c).ink| % 80 == 0
  {
    assert NextRow(|p.ink|) <= 80 * p.top + CELLS;
  }

  lemma {:induction false} LayoutEqual(p: Paper, bytes: seq<Byte>)
    requires BACKSPACE !in bytes && Absorbed(p, bytes) == 0
    ensures TypeAll(p, bytes).ink == Layout(p.ink, bytes)
    decreases |bytes|
  {
    if bytes == [] {
    } else {
      assert forall b :: b in bytes[1..] ==> b in bytes;
      LayoutEqual(Type(p, bytes[0]), bytes[1..]);
    }
  }

  /** Text without backspaces is laid out faithfully exactly when no newline met a pending scroll;
      each one that did is one row missing. */
  lemma LayoutIsFaithfulExactly(bytes: seq<Byte>)
    requires BACKSPACE !in bytes
    ensures var p := Paper([], 0);
      && (TypeAll(p, bytes).ink == Layout([], bytes) <==> Absorbed(p, bytes) == 0)
      && |Layout([], bytes)| == |TypeAll(p, bytes).ink| + 80 * Absorbed(p, bytes)
  {
    LayoutLength(Paper([], 0), [], 0, bytes);
    if Absorbed(Paper([], 0), bytes) == 0 {
      LayoutEqual(Paper([], 0), bytes);
    }
  }

  /** Such a newline exists: it follows a screen filled with printing characters. */
  lemma FullScreenSwallowsNewline(bytes: seq<Byte>)
    requires |bytes| == CELLS && forall i :: 0 <= i < |bytes| ==> Printing(bytes[i])
    ensures Absorbed(Paper([], 0), bytes + [10]) == 1
  {
    FillThenNewline(Paper([], 0), bytes);
  }

  lemma {:induction false} FillThenNewline(p: Paper, bytes: seq<Byte>)
    requires p.top == 0 && |p.ink| + |bytes| == CELLS && forall i :: 0 <= i < |bytes| ==> Printing(bytes[i])
    ensures Absorbed(p, bytes + [10]) == 1
    decreases |bytes|
  {
    if bytes == [] {
      assert bytes + [10] == [10] && [10][1..] == [];
      assert Absorbed(Type(p, 10), []) == 0;
    } else {
      assert (bytes + [10])[1..] == bytes[1..] + [10];
      FillThenNewline(Type(p, bytes[0]), bytes[1..]);
    }
  }

  // ------------------------------------------------------------- the display

  /** The displayed characters are the backup's, except that the mouse cell may hold '?'. */
  ghost predicate Coherent(screen: seq<Byte>, cells: seq<Byte>, mouse: int) {
    && |screen| == CELLS && |cells| == CELLS
    && forall i :: 0 <= i < CELLS ==> screen[i] == cells[i] || (i == mouse && screen[i] == 63)
  }

  function ScrolledCell(screen: seq<Byte>, cells: seq<Byte>, i: nat): Byte
    requires |screen| == CELLS && |cells| == CELLS && i < CELLS
  {
    if i >= CELLS - 80 then BLANK else if screen[i + 80] != MOUSE then screen[i + 80] else cells[i + 80]
  }

  /** `putc`'s scroll of video memory: a '?' is replaced by what the backup has there. */
  function ScrolledScreen(screen: seq<Byte>, cells: seq<Byte>): (r: seq<Byte>)
    requires |screen| == CELLS && |cells| == CELLS
    ensures |r| == CELLS
    ensures forall i :: 0 <= i < CELLS ==> r[i] == ScrolledCell(screen, cells, i)
  {
    seq(CELLS, i requires 0 <= i < CELLS => ScrolledCell(screen, cells, i))
  }

  function ScreenPutc(screen: seq<Byte>, t: Terminal, c: Byte): seq<Byte>
    requires TerminalOk(t) && |screen| == CELLS
  {
    Written(if Scrolls(t, c) then ScrolledScreen(screen, t.cells) else screen, t, c)
  }

  /** Output keeps the display coherent, and a scroll makes it equal to the backup everywhere. */
  lemma PutcKeepsCoherence(screen: seq<Byte>, t: Terminal, c: Byte, mouse: int)
    requires TerminalOk(t) && Coherent(screen, t.cells, mouse)
    ensures Coherent(ScreenPutc(screen, t, c), Putc(t, c).cells, mouse)
    ensures Scrolls(t, c) ==> ScreenPutc(screen, t, c) == Putc(t, c).cells
  {
    if Scrolls(t, c) {
      assert ScrolledScreen(screen, t.cells) == Scrolled(t.cells);
    }
  }
}
