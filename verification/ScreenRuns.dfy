/**
 All that can happen to the display, as steps on one value, and what every run keeps.
 */
module ScreenRuns {
  import opened Common
  import opened Console

  datatype View = View(screen: seq<Byte>, terms: seq<Terminal>, displayed: int, mouseX: int, mouseY: int)

  datatype Event =
    | Put(c: Byte)                            // putc, on the displayed terminal
    | Background(t: int, c: Byte)             // putc_background, on another one
    | Clear
    | Mouse(flags: Byte, dx: Byte, dy: Byte)
    | Switch(t: int)                          // Alt+F1..F3
    | Refresh                                 // the tick's copy for a vidmap program
    | UserWrite(t: int, i: nat, c: Byte)      // a vidmap program stores into its backup screen

  /** C division: towards zero. */
  function TruncDiv(a: int, b: int): int
    requires b > 0
  {
    if a >= 0 then a / b else -(-a / b)
  }

  /** A nine-bit two's complement movement: the sign comes from the first packet byte. */
  function Delta(negative: bool, low: Byte): int { if negative then low - 256 else low }

  function Clamp(v: int, above: int, onAbove: int): int {
    if v > above then onAbove else if v < 0 then 0 else v
  }

  function MovedX(x: int, flags: Byte, dx: Byte): (r: int)
    ensures 0 <= r < 80
  {
    Clamp(x + TruncDiv(Delta((flags / 16) % 2 == 1, dx), 5), 79, 78)
  }

  function MovedY(y: int, flags: Byte, dy: Byte): (r: int)
    ensures 0 <= r < 25
  {
    Clamp(y - TruncDiv(Delta((flags / 32) % 2 == 1, dy), 10), 24, 24)
  }

  ghost predicate ViewOk(v: View) {
    && |v.screen| == CELLS && |v.terms| == 3 && (forall t :: 0 <= t < 3 ==> TerminalOk(v.terms[t]))
    && 0 <= v.displayed < 3 && 0 <= v.mouseX < 80 && 0 <= v.mouseY < 25
  }

  ghost predicate Possible(v: View, e: Event) {
    match e
    case Background(t, _) => 0 <= t < 3 && t != v.displayed
    case Switch(t) => 0 <= t < 3
    case UserWrite(t, i, _) => 0 <= t < 3 && i < CELLS
    case _ => true
  }

  function MouseCell(v: View): int { v.mouseY * 80 + v.mouseX }

  ghost function After(v: View, e: Event): (r: View)
    requires ViewOk(v) && Possible(v, e)
    ensures ViewOk(r)
  {
    match e
    case Put(c) =>
      v.(screen := ScreenPutc(v.screen, v.terms[v.displayed], c),
         terms := v.terms[v.displayed := Putc(v.terms[v.displayed], c)])
    case Background(t, c) => v.(terms := v.terms[t := PutcBackground(v.terms[t], c)])
    case Clear => v.(screen := CLEARED.cells, terms := v.terms[v.displayed := CLEARED])
    case Mouse(flags, dx, dy) =>
      var x, y := MovedX(v.mouseX, flags, dx), MovedY(v.mouseY, flags, dy);
      var repaired := v.screen[MouseCell(v) := v.terms[v.displayed].cells[MouseCell(v)]];
      v.(screen := repaired[y * 80 + x := MOUSE], mouseX := x, mouseY := y)
    case Switch(t) => v.(displayed := t, screen := v.terms[t].cells)
    case Refresh => v.(screen := v.terms[v.displayed].cells)
    case UserWrite(t, i, c) => v.(terms := v.terms[t := v.terms[t].(cells := v.terms[t].cells[i := c])])
  }

  /** The reported movement: nine bits in two's complement, the sign bit apart from the low byte. */
  lemma MovementIsSigned(negative: bool, low: Byte)
    ensures -256 <= Delta(negative, low) <= 255 && (Delta(negative, low) < 0 <==> negative)
    ensures Delta(negative, low) == low || Delta(negative, low) == low - 256
  {
  }

  /** `q` is `s / d` as C computes it: towards zero, with a remainder of the sign of `s`. */
  predicate Quotient(q: int, s: int, d: int) {
    if s >= 0 then q >= 0 && 0 <= s - d * q < d else q <= 0 && -d < s - d * q <= 0
  }

  /** A packet moves the mark by a fifth of its horizontal movement to the right and a tenth of its
      vertical movement up.  Past the right edge it lands in column 78, past the others on the edge.
      `sx` and `sy` are bits 4 and 5 of the first byte. */
  lemma MouseFollowsPacket(v: View, flags: Byte, dx: Byte, dy: Byte,
                           sx: nat, sy: nat, rest: nat, low: nat, qx: int, qy: int)
    requires ViewOk(v) && sx < 2 && sy < 2 && low < 16 && flags == 64 * rest + 32 * sy + 16 * sx + low
    requires Quotient(qx, dx - 256 * sx, 5) && Quotient(qy, dy - 256 * sy, 10)
    ensures var w := After(v, Mouse(flags, dx, dy));
      && (0 <= v.mouseX + qx <= 79 ==> w.mouseX == v.mouseX + qx)
      && (v.mouseX + qx > 79 ==> w.mouseX == 78) && (v.mouseX + qx < 0 ==> w.mouseX == 0)
      && (0 <= v.mouseY - qy <= 24 ==> w.mouseY == v.mouseY - qy)
      && (v.mouseY - qy > 24 ==> w.mouseY == 24) && (v.mouseY - qy < 0 ==> w.mouseY == 0)
      && w.terms == v.terms && w.displayed == v.displayed
  {
    SignBits(flags, sx, sy, rest, low);
    TruncDivIs(qx, dx - 256 * sx, 5);
    TruncDivIs(qy, dy - 256 * sy, 10);
  }

  lemma SignBits(flags: nat, sx: nat, sy: nat, rest: nat, low: nat)
    requires sx < 2 && sy < 2 && low < 16 && flags == 64 * rest + 32 * sy + 16 * sx + low
    ensures (flags / 16) % 2 == sx && (flags / 32) % 2 == sy
  {
    assert flags / 16 == 4 * rest + 2 * sy + sx && flags / 32 == 2 * rest + sy;
  }

  lemma TruncDivIs(q: int, s: int, d: int)
    requires (d == 5 || d == 10) && Quotient(q, s, d)
    ensures TruncDiv(s, d) == q
  {
  }

  /** The mark is drawn in its new cell, and the cell it leaves shows the backup's character again. */
  lemma MarkIsDrawn(v: View, flags: Byte, dx: Byte, dy: Byte, i: nat)
    requires ViewOk(v) && i < 2000
    ensures var w := After(v, Mouse(flags, dx, dy));
      w.screen[i] ==
        if i == 80 * w.mouseY + w.mouseX then 63
        else if i == 80 * v.mouseY + v.mouseX then v.terms[v.displayed].cells[i]
        else v.screen[i]
  {
  }

  /** While the mark stays on the screen, five times its column change is within 4 of the reported
      movement and on the same side of 0; ten times its row change, turned round, within 9. */
  lemma MarkKeepsToMovement(v: View, flags: Byte, dx: Byte, dy: Byte,
                            sx: nat, sy: nat, rest: nat, low: nat, qx: int, qy: int)
    requires ViewOk(v) && sx < 2 && sy < 2 && low < 16 && flags == 64 * rest + 32 * sy + 16 * sx + low
    requires Quotient(qx, dx - 256 * sx, 5) && Quotient(qy, dy - 256 * sy, 10)
    requires 0 <= v.mouseX + qx <= 79 && 0 <= v.mouseY - qy <= 24
    ensures var w, mx, my := After(v, Mouse(flags, dx, dy)), dx - 256 * sx, dy - 256 * sy;
      && -4 <= 5 * (w.mouseX - v.mouseX) - mx <= 4 && -9 <= 10 * (v.mouseY - w.mouseY) - my <= 9
      && (mx >= 0 ==> w.mouseX >= v.mouseX) && (mx <= 0 ==> w.mouseX <= v.mouseX)
      && (my >= 0 ==> w.mouseY <= v.mouseY) && (my <= 0 ==> w.mouseY >= v.mouseY)
  {
    MouseFollowsPacket(v, flags, dx, dy, sx, sy, rest, low, qx, qy);
  }

  /** How output shows: only terminal `t` changes, and the screen as given. */
  lemma OutputView(v: View, w: View, t: int, screen: seq<Byte>, term: Terminal)
    requires |v.terms| == 3 && |w.terms| == 3 && 0 <= t < 3
    requires w.screen == screen && w.terms[t] == term
    requires forall u :: 0 <= u < 3 && u != t ==> w.terms[u] == v.terms[u]
    requires w.displayed == v.displayed && w.mouseX == v.mouseX && w.mouseY == v.mouseY
    ensures w == v.(screen := screen, terms := v.terms[t := term])
  {
    assert w.terms == v.terms[t := term];
  }

  /** The screen is the displayed terminal's backup, up to the mouse mark. */
  ghost predicate InStep(v: View) {
    ViewOk(v) && Coherent(v.screen, v.terms[v.displayed].cells, MouseCell(v))
  }

  /** Whether screen and backup are in step after `e`, given whether they were before. */
  predicate StaysInStep(displayed: int, e: Event, before: bool) {
    e.Clear? || e.Switch? || e.Refresh? || (before && (e.UserWrite? ==> e.t != displayed))
  }

  lemma StepInStep(v: View, e: Event, before: bool)
    requires ViewOk(v) && Possible(v, e) && (before ==> InStep(v)) && StaysInStep(v.displayed, e, before)
    ensures InStep(After(v, e))
  {
    if e.Put? {
      PutcKeepsCoherence(v.screen, v.terms[v.displayed], e.c, MouseCell(v));
    }
  }

  ghost predicate Runs(v: View, es: seq<Event>)
    decreases es
  {
    ViewOk(v) && (es == [] || (Possible(v, es[0]) && Runs(After(v, es[0]), es[1..])))
  }

  ghost function Run(v: View, es: seq<Event>): View
    requires Runs(v, es)
    decreases es
  {
    if es == [] then v else Run(After(v, es[0]), es[1..])
  }

  /** In step at the end: nothing has been stored behind the display's back since the last copy or clear. */
  ghost predicate Settled(v: View, es: seq<Event>, before: bool)
    requires Runs(v, es)
    decreases es
  {
    if es == [] then before
    else Settled(After(v, es[0]), es[1..], StaysInStep(v.displayed, es[0], before))
  }

  lemma {:induction false} RunInStep(v: View, es: seq<Event>, before: bool)
    requires Runs(v, es) && (before ==> InStep(v)) && Settled(v, es, before)
    ensures InStep(Run(v, es))
    decreases es
  {
    if es == [] {
    } else {
      var after := StaysInStep(v.displayed, es[0], before);
      if after { StepInStep(v, es[0], before); }
      RunInStep(After(v, es[0]), es[1..], after);
    }
  }

  lemma {:induction false} NoVidmapSettles(v: View, es: seq<Event>)
    requires Runs(v, es) && forall i :: 0 <= i < |es| ==> !es[i].UserWrite?
    ensures Settled(v, es, true)
    decreases es
  {
    if es == [] {
    } else {
      NoVidmapSettles(After(v, es[0]), es[1..]);
    }
  }

  /** With no vidmap program active, every run of output, clears, mouse moves and terminal switches
      keeps the displayed characters equal to the backup, except that the mouse cell may hold '?'. */
  lemma DisplayStaysInStep(v: View, es: seq<Event>)
    requires InStep(v) && Runs(v, es) && forall i :: 0 <= i < |es| ==> !es[i].UserWrite?
    ensures InStep(Run(v, es))
  {
    NoVidmapSettles(v, es);
    RunInStep(v, es, true);
  }
}
