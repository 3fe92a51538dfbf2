/**
 Line editing of one terminal: the key branches of keyboard_interrupt_handler
 that fill `typed_buf`, deliver to `share_buf` and keep the history (keyboard.c).
 */
module Keyboard {
  import opened Common

  const LINE := 128
  const HISTORY := 20

  /** Ctrl+L carries the character its key prints when the line is full. */
  datatype Key = Char(c: char) | Enter | Backspace | ClearScreen(c: char)

  /** What a reader of `share_buf` sees, and the line being typed. */
  datatype Line = Line(typed: seq<char>, idx: nat, share: seq<char>)

  predicate LineOk(l: Line) { |l.typed| == LINE && |l.share| == LINE && l.idx <= LINE }

  function Nuls(): (r: seq<char>)
    ensures |r| == LINE && forall i :: 0 <= i < LINE ==> r[i] == NUL
  {
    seq(LINE, _ => NUL)
  }

  /** Enter.  At index 128 the newline lands behind `typed_buf`, in `typing_finish`, and is lost. */
  function EnterLine(l: Line): (r: Line)
    requires LineOk(l)
    ensures LineOk(r)
  {
    Line(Nuls(), 0, if l.idx < LINE then l.typed[l.idx := '\n'] else l.typed)
  }

  /** A full line is delivered as it is before the next key counts. */
  function Overflow(l: Line): (r: Line)
    requires LineOk(l)
    ensures LineOk(r)
  {
    Line(Nuls(), 0, l.typed)
  }

  function Typed(l: Line, c: char): (r: Line)
    requires LineOk(l) && l.idx < LINE
    ensures LineOk(r)
  {
    Line(l.typed[l.idx := c], l.idx + 1, l.share)
  }

  function Press(l: Line, k: Key): (r: Line)
    requires LineOk(l)
    ensures LineOk(r)
  {
    match k
    case Enter => EnterLine(l)
    case Char(c) => Typed(if l.idx == LINE then Overflow(l) else l, c)
    case Backspace => if l.idx == LINE then Overflow(l) else if l.idx > 0 then l.(idx := l.idx - 1) else l
    case ClearScreen(c) => if l.idx == LINE then Typed(Overflow(l), c) else l.(typed := Nuls(), idx := 0)
  }

  predicate Delivers(l: Line, k: Key) { k.Enter? || l.idx == LINE }

  /** The text a key press makes available in `share_buf`. */
  function Delivered(l: Line, k: Key): string
    requires LineOk(l)
  {
    if Delivers(l, k) then UpTo(Press(l, k).share, NUL) else ""
  }

  function Pending(l: Line): string
    requires LineOk(l)
  {
    l.typed[..l.idx]
  }

  function PressAll(l: Line, ks: seq<Key>): (r: Line)
    requires LineOk(l)
    ensures LineOk(r)
    decreases |ks|
  {
    if ks == [] then l else PressAll(Press(l, ks[0]), ks[1..])
  }

  function DeliveredAll(l: Line, ks: seq<Key>): string
    requires LineOk(l)
    decreases |ks|
  {
    if ks == [] then "" else Delivered(l, ks[0]) + DeliveredAll(Press(l, ks[0]), ks[1..])
  }

  // ------------------------------------------------------------ conservation

  function TextOf(k: Key): string {
    match k
    case Char(c) => [c]
    case Enter => "\n"
    case _ => ""
  }

  function TextOfAll(ks: seq<Key>): string
    decreases |ks|
  {
    if ks == [] then "" else TextOf(ks[0]) + TextOfAll(ks[1..])
  }

  /** Printable keys and Enter only. */
  predicate Plain(ks: seq<Key>) {
    forall i :: 0 <= i < |ks| ==> ks[i].Enter? || (ks[i].Char? && ks[i].c != NUL)
  }

  /** Nothing but NULs from the cursor on, none before it. */
  predicate Clean(l: Line) {
    LineOk(l) && NUL !in l.typed[..l.idx] && forall i :: l.idx <= i < LINE ==> l.typed[i] == NUL
  }

  /** How many Enters come when the line is already full. */
  function LostNewlines(l: Line, ks: seq<Key>): nat
    requires LineOk(l)
    decreases |ks|
  {
    if ks == [] then 0
    else (if ks[0].Enter? && l.idx == LINE then 1 else 0) + LostNewlines(Press(l, ks[0]), ks[1..])
  }

  lemma PressPlain(l: Line, k: Key)
    requires Clean(l) && Plain([k])
    ensures Clean(Press(l, k))
    ensures Delivered(l, k) + Pending(Press(l, k)) ==
      Pending(l) + (if k.Enter? && l.idx == LINE then "" else TextOf(k))
  {
    assert k == [k][0];
    if Delivers(l, k) {
      var share := Press(l, k).share;
      var n := if k.Enter? && l.idx < LINE then l.idx + 1 else l.idx;
      forall i | 0 <= i < n ensures share[i] != NUL {
        assert i < l.idx ==> l.typed[..l.idx][i] == l.typed[i];
      }
      UpToIs(share, NUL, n);
      if k.Enter? && l.idx < LINE {
        assert share[..n] == Pending(l) + "\n";
      } else {
        assert share[..n] == Pending(l);
      }
    }
    if k.Char? {
      var l1 := if l.idx == LINE then Overflow(l) else l;
      assert l1.typed[l1.idx := k.c][..l1.idx + 1] == l1.typed[..l1.idx] + [k.c];
    }
  }

  /** Each Enter that meets a full line costs one character, nothing else does. */
  lemma {:induction false} KeyCount(l: Line, ks: seq<Key>)
    requires Clean(l) && Plain(ks)
    ensures Clean(PressAll(l, ks))
    ensures |DeliveredAll(l, ks)| + |Pending(PressAll(l, ks))| + LostNewlines(l, ks) == |Pending(l)| + |TextOfAll(ks)|
    decreases |ks|
  {
    if ks == [] {
    } else {
      var k := ks[0];
      assert k == [k][0];
      PressPlain(l, k);
      var out := Delivered(l, k) + Pending(Press(l, k));
      assert |out| == |Delivered(l, k)| + |Pending(Press(l, k))|;
      KeyCount(Press(l, k), ks[1..]);
    }
  }

  lemma {:induction false} NothingLost(l: Line, ks: seq<Key>)
    requires Clean(l) && Plain(ks) && LostNewlines(l, ks) == 0
    ensures DeliveredAll(l, ks) + Pending(PressAll(l, ks)) == Pending(l) + TextOfAll(ks)
    decreases |ks|
  {
    if ks == [] {
    } else {
      var k, l1 := ks[0], Press(l, ks[0]);
      assert k == [k][0];
      PressPlain(l, k);
      NothingLost(l1, ks[1..]);
      Regroup(Delivered(l, k), DeliveredAll(l1, ks[1..]), Pending(PressAll(l1, ks[1..])),
              Pending(l1), TextOfAll(ks[1..]), Pending(l), TextOf(k));
    }
  }

  lemma Regroup(out: string, more: string, end: string, pending1: string, rest: string, pending: string, text: string)
    requires more + end == pending1 + rest && out + pending1 == pending + text
    ensures (out + more) + end == pending + (text + rest)
  {
    assert (out + more) + end == out + (more + end) == (out + pending1) + rest;
    assert pending + (text + rest) == (pending + text) + rest;
  }

  /** Keys are conserved: what was delivered followed by what is pending is what was typed, in order,
      exactly when no Enter met a full line. */
  lemma KeysAreConserved(l: Line, ks: seq<Key>)
    requires Clean(l) && Plain(ks)
    ensures DeliveredAll(l, ks) + Pending(PressAll(l, ks)) == Pending(l) + TextOfAll(ks) <==> LostNewlines(l, ks) == 0
  {
    KeyCount(l, ks);
    assert |DeliveredAll(l, ks) + Pending(PressAll(l, ks))| + LostNewlines(l, ks) == |Pending(l) + TextOfAll(ks)|;
    if LostNewlines(l, ks) == 0 {
      NothingLost(l, ks);
    }
  }

  /** Such an Enter exists: it follows the keys that fill the line. */
  lemma {:induction false} FullLineLosesEnter(l: Line, ks: seq<Key>)
    requires LineOk(l) && |ks| == 128 - l.idx && forall i :: 0 <= i < |ks| ==> ks[i].Char?
    ensures LostNewlines(l, ks + [Enter]) == 1
    decreases |ks|
  {
    if ks == [] {
      assert ks + [Enter] == [Enter];
      assert LostNewlines(Press(l, Enter), [Enter][1..]) == 0;
    } else {
      assert (ks + [Enter])[1..] == ks[1..] + [Enter];
      FullLineLosesEnter(Press(l, ks[0]), ks[1..]);
    }
  }

  /** The next key on a line of 128 characters delivers the line; a character stays as the first of the
      new line, Ctrl+L too for once, a backspace or an Enter leaves the new line empty. */
  lemma FullLineIsDelivered(l: Line, k: Key)
    requires Clean(l) && l.idx == 128
    ensures Delivered(l, k) == Pending(l)
    ensures Pending(Press(l, k)) == (if k.Char? || k.ClearScreen? then [k.c] else "")
  {
    UpToIs(Press(l, k).share, NUL, 128);
    assert l.typed[..128] == l.typed;
    forall i | 0 <= i < 128 ensures l.typed[i] != NUL {
      assert l.typed[..l.idx][i] == l.typed[i];
    }
  }

  /** Ctrl+L on any shorter line forgets it, stale characters included: nothing is delivered, and an
      Enter now would deliver an empty line. */
  lemma ClearScreenForgets(l: Line, c: char)
    requires LineOk(l) && l.idx < 128
    ensures Delivered(l, ClearScreen(c)) == "" && Pending(Press(l, ClearScreen(c))) == ""
    ensures Press(l, ClearScreen(c)).share == l.share
    ensures Delivered(Press(l, ClearScreen(c)), Enter) == "\n"
  {
    var l1 := Press(l, ClearScreen(c));
    UpToIs(Press(l1, Enter).share, NUL, 1);
    assert Press(l1, Enter).share[..1] == "\n";
  }

  // -------------------------------------------------------------- stale bytes

  /** The line was once `high` characters long; backspaces have moved the cursor back since. */
  ghost predicate Reached(l: Line, high: nat) {
    && LineOk(l) && l.idx <= high <= LINE
    && (forall i :: 0 <= i < high ==> l.typed[i] != NUL)
    && (forall i :: high <= i < LINE ==> l.typed[i] == NUL)
  }

  lemma PressKeepsReached(l: Line, k: Key, high: nat)
    requires Reached(l, high) && l.idx < LINE && (k.Backspace? || (k.Char? && k.c != NUL))
    ensures Reached(Press(l, k), if k.Char? && l.idx == high then high + 1 else high)
  {
  }

  /** After backspaces Enter delivers the line, the newline and every character erased but the first:
      the line is right exactly when at most one erased character is left behind the cursor. */
  lemma StaleTailExactly(l: Line, high: nat)
    requires Reached(l, high) && l.idx < LINE
    ensures Delivered(l, Enter) ==
      Pending(l) + "\n" + (if high > l.idx + 1 then l.typed[l.idx + 1..high] else "")
    ensures Delivered(l, Enter) == Pending(l) + "\n" <==> high <= l.idx + 1
  {
    var share := EnterLine(l).share;
    var n := if high > l.idx then high else l.idx + 1;
    UpToIs(share, NUL, n);
    SplitAt(l.typed, l.idx, '\n', n);
  }

  /** The line on the screen after characters and backspaces, from an empty one. */
  function Edited(ks: seq<Key>): string
    decreases |ks|
  {
    if ks == [] then ""
    else
      var line := Edited(ks[..|ks| - 1]);
      match ks[|ks| - 1]
      case Char(c) => line + [c]
      case Backspace => if line == "" then line else line[..|line| - 1]
      case _ => line
  }

  /** Characters and backspaces only, the line never full. */
  ghost predicate EditsOneLine(ks: seq<Key>) {
    && (forall i :: 0 <= i < |ks| ==> ks[i].Backspace? || (ks[i].Char? && ks[i].c != NUL))
    && forall i :: 0 <= i <= |ks| ==> |Edited(ks[..i])| < LINE
  }

  /** How long the line has ever been. */
  function Longest(ks: seq<Key>): nat
    decreases |ks|
  {
    if ks == [] then 0
    else
      var before := Longest(ks[..|ks| - 1]);
      if |Edited(ks)| > before then |Edited(ks)| else before
  }

  lemma {:induction false} LongestIs(ks: seq<Key>)
    ensures forall i :: 0 <= i <= |ks| ==> |Edited(ks[..i])| <= Longest(ks)
    ensures exists i :: 0 <= i <= |ks| && |Edited(ks[..i])| == Longest(ks)
    decreases |ks|
  {
    assert ks[..|ks|] == ks;
    if ks == [] {
    } else {
      var before := ks[..|ks| - 1];
      LongestIs(before);
      assert forall i :: 0 <= i < |ks| ==> before[..i] == ks[..i];
    }
  }

  lemma {:induction false} PressAllSnoc(l: Line, ks: seq<Key>, k: Key)
    requires LineOk(l)
    ensures PressAll(l, ks + [k]) == Press(PressAll(l, ks), k)
    decreases |ks|
  {
    if ks == [] {
      assert [k][1..] == [];
    } else {
      assert (ks + [k])[1..] == ks[1..] + [k];
      PressAllSnoc(Press(l, ks[0]), ks[1..], k);
    }
  }

  lemma PressEdits(l: Line, k: Key)
    requires LineOk(l) && l.idx < LINE && (k.Char? || k.Backspace?)
    ensures k.Char? ==> Pending(Press(l, k)) == Pending(l) + [k.c]
    ensures k.Backspace? ==> Pending(Press(l, k)) == if Pending(l) == "" then "" else Pending(l)[..|Pending(l)| - 1]
  {
  }

  /** The buffer follows the screen: the same line before the cursor, and the erased characters still
      behind it, as many as the line was ever longer. */
  lemma {:induction false} EditsReach(l: Line, ks: seq<Key>)
    requires Clean(l) && l.idx == 0 && EditsOneLine(ks)
    ensures Reached(PressAll(l, ks), Longest(ks)) && Pending(PressAll(l, ks)) == Edited(ks)
    decreases |ks|
  {
    if ks == [] {
    } else {
      var before, k := ks[..|ks| - 1], ks[|ks| - 1];
      assert forall i :: 0 <= i < |ks| ==> before[..i] == ks[..i];
      EditsReach(l, before);
      assert before + [k] == ks && ks[..|ks|] == ks;
      PressAllSnoc(l, before, k);
      var l1 := PressAll(l, before);
      PressKeepsReached(l1, k, Longest(before));
      PressEdits(l1, k);
      assert Longest(ks) == if k.Char? && l1.idx == Longest(before) then Longest(before) + 1 else Longest(before);
    }
  }

  /** Enter delivers the line on the screen exactly when the line was never more than one character
      longer than it is now: one backspace is forgiven, two leave a stale character behind the newline. */
  lemma DeliveredIsShownExactly(l: Line, ks: seq<Key>)
    requires Clean(l) && l.idx == 0 && EditsOneLine(ks)
    ensures Delivered(PressAll(l, ks), Enter) == Edited(ks) + "\n" <==>
      forall i :: 0 <= i <= |ks| ==> |Edited(ks[..i])| <= |Edited(ks)| + 1
  {
    EditsReach(l, ks);
    LongestIs(ks);
    assert ks[..|ks|] == ks;
    StaleTailExactly(PressAll(l, ks), Longest(ks));
  }

  lemma SplitAt(s: seq<char>, i: nat, c: char, n: nat)
    requires i < n <= |s|
    ensures s[i := c][..n] == s[..i] + [c] + s[i + 1..n]
  {
  }

  // ---------------------------------------------------------------- in memory

  class LineBuffer {
    const typedBuf: array<char>
    const shareBuf: array<char>
    const history: array2<char>    // buffer_for_ec
    var currCharIdx: nat
    var typingFinish: bool
    var ecIdx: int                 // buffer_ec_idx
    var size: int                  // buffer_size
    var helloFlag: bool

    ghost predicate Valid()
      reads this
    {
      && typedBuf.Length == LINE && shareBuf.Length == LINE && typedBuf != shareBuf
      && history.Length0 == HISTORY && history.Length1 == LINE
      && currCharIdx <= LINE && 0 <= ecIdx <= size <= HISTORY
    }

    ghost function Abs(): Line
      requires Valid()
      reads this, typedBuf, shareBuf
    {
      Line(typedBuf[..], currCharIdx, shareBuf[..])
    }

    /** terminal_init and keyboard_init. */
    constructor ()
      ensures Valid() && Clean(Abs()) && currCharIdx == 0 && ecIdx == 0 && size == 0
      ensures fresh(typedBuf) && fresh(shareBuf) && fresh(history)
    {
      typedBuf := new char[LINE](_ => NUL);
      shareBuf := new char[LINE](_ => NUL);
      history := new char[HISTORY, LINE]((_, _) => NUL);
      currCharIdx, typingFinish, ecIdx, size, helloFlag := 0, false, 0, 0, false;
    }

    method ClearBuffer()
      requires Valid()
      modifies typedBuf
      ensures typedBuf[..] == Nuls()
    {
      var i := 0;
      while i < LINE
        invariant 0 <= i <= LINE && forall k :: 0 <= k < i ==> typedBuf[k] == NUL
      {
        typedBuf[i] := NUL;
        i := i + 1;
      }
    }

    /** The history row at `size`, unless the terminal runs hello or counter. */
    method Remember()
      requires Valid()
      modifies `size, history
      ensures size == (if old(size) == 20 then 0 else old(size)) + (if helloFlag then 0 else 1)
      ensures 0 <= size <= HISTORY
      ensures !helloFlag ==> forall i :: 0 <= i < LINE ==> history[size - 1, i] == typedBuf[i]
      ensures forall r, i :: 0 <= r < HISTORY && 0 <= i < LINE && (helloFlag || r != size - 1) ==>
        history[r, i] == old(history[r, i])
    {
      if size == HISTORY { size := 0; }
      if helloFlag { return; }
      var row := size;
      var i := 0;
      while i < LINE
        invariant 0 <= i <= LINE && size == row
        invariant forall k :: 0 <= k < i ==> history[row, k] == typedBuf[k]
        invariant forall r, k :: 0 <= r < HISTORY && 0 <= k < LINE && r != row ==> history[r, k] == old(history[r, k])
      {
        history[row, i] := typedBuf[i];
        i := i + 1;
      }
      size := size + 1;
    }

    /** Copies the line to the reader and starts a new one. */
    method Deliver()
      requires Valid()
      modifies `typingFinish, `currCharIdx, typedBuf, shareBuf
      ensures Valid() && typingFinish && Abs() == Line(Nuls(), 0, old(typedBuf[..]))
    {
      var i := 0;
      while i < LINE
        invariant 0 <= i <= LINE && forall k :: 0 <= k < i ==> shareBuf[k] == typedBuf[k]
        invariant Valid() && typedBuf[..] == old(typedBuf[..])
      {
        shareBuf[i] := typedBuf[i];
        i := i + 1;
      }
      assert shareBuf[..] == old(typedBuf[..]);
      typingFinish := true;
      ClearBuffer();
      currCharIdx := 0;
    }

    /** The history row the next delivered line goes to. */
    function NextRow(): int
      reads `size
    {
      if size == HISTORY then 0 else size
    }

    /** One key press on the displayed terminal. */
    method PressKey(k: Key)
      requires Valid()
      modifies this, typedBuf, shareBuf, history
      ensures Valid() && Abs() == Press(old(Abs()), k) && helloFlag == old(helloFlag)
      ensures Delivers(old(Abs()), k) ==>
        typingFinish && ecIdx == size && size == old(NextRow()) + (if helloFlag then 0 else 1)
      ensures Delivers(old(Abs()), k) && !helloFlag ==>
        forall i :: 0 <= i < LINE ==> history[old(NextRow()), i] == old(typedBuf[i])
      ensures forall r, i :: 0 <= r < HISTORY && 0 <= i < LINE ==>
        (Delivers(old(Abs()), k) && !helloFlag && r == old(NextRow())) || history[r, i] == old(history[r, i])
      ensures !Delivers(old(Abs()), k) ==> typingFinish == old(typingFinish) && ecIdx == old(ecIdx) && size == old(size)
    {
      if k.Enter? {
        Remember();
        if currCharIdx < LINE {  // behind the buffer lies typing_finish, set below
          typedBuf[currCharIdx] := '\n';
        }
        ghost var text := typedBuf[..];
        ecIdx := size;
        Deliver();
        assert text == EnterLine(old(Abs())).share;
        return;
      }
      if currCharIdx == LINE {
        Remember();
        ecIdx := size;
        Deliver();
        assert Abs() == Overflow(old(Abs()));
      } else if k.ClearScreen? {
        ClearBuffer();
        currCharIdx := 0;
        return;
      } else if k.Backspace? {
        if currCharIdx > 0 {
          currCharIdx := currCharIdx - 1;
        }
        return;
      }
      if !k.Backspace? {  // ins_flag is clear: the key prints
        typedBuf[currCharIdx] := k.c;
        currCharIdx := currCharIdx + 1;
      }
    }

    /** Character `i` from the start of a row; the rows lie one behind the other. */
    function InRow(row: int, i: int): char
      requires Valid() && 0 <= row < HISTORY && 0 <= i <= LINE && (i == LINE ==> row + 1 < HISTORY)
      reads this, history
    {
      if i < LINE then history[row, i] else history[row + 1, 0]
    }

    /** The row's first NUL comes at the latest right behind it. */
    ghost predicate RowEnds(row: int)
      requires Valid() && 0 <= row < HISTORY
      reads this, history
    {
      exists n :: 0 <= n <= LINE && (n == LINE ==> row + 1 < HISTORY) && InRow(row, n) == NUL
    }

    /** The up arrow: back one line of history, as far as its first NUL. */
    method Recall()
      requires Valid() && (ecIdx > 0 ==> RowEnds(ecIdx - 1))
      modifies `ecIdx, `currCharIdx, typedBuf
      ensures Valid() && ecIdx == (if old(ecIdx) > 0 then old(ecIdx) - 1 else old(ecIdx))
      ensures old(ecIdx) > 0 ==>
        && (currCharIdx == LINE ==> ecIdx + 1 < HISTORY) && InRow(ecIdx, currCharIdx) == NUL && Clean(Abs())
        && forall i :: 0 <= i < currCharIdx ==> typedBuf[i] == history[ecIdx, i]
      ensures old(ecIdx) == 0 ==> currCharIdx == old(currCharIdx) && typedBuf[..] == old(typedBuf[..])
    {
      if ecIdx <= 0 { return; }
      var row := ecIdx - 1;
      ghost var n :| 0 <= n <= LINE && (n == LINE ==> row + 1 < HISTORY) && InRow(row, n) == NUL;
      ecIdx := row;
      ClearBuffer();
      var i := 0;
      while InRow(row, i) != NUL
        invariant 0 <= i <= n && Valid() && ecIdx == row
        invariant forall k :: 0 <= k < i ==> history[row, k] != NUL
        invariant forall k :: 0 <= k < LINE ==> typedBuf[k] == if k < i then history[row, k] else NUL
        decreases n - i
      {
        typedBuf[i] := history[row, i];
        i := i + 1;
      }
      currCharIdx := i;
    }
  }
}
