/**
 Whole files read by many calls: what reaches a reader of `file_read`, alone, with
 a flag others have left set or keep changing, and with requests of varying size.
 */
module Drains {
  import opened Common
  import opened FileSystem

  /** What a reader collects that asks for `n` bytes at a time until the first 0. */
  function Drain(content: seq<Byte>, pos: nat, last: int, n: nat): seq<Byte>
    requires n > 0 && pos <= |content| && (last == 0 || last == 1)
    decreases |content| - pos, 1 - last
  {
    var (r, pos', last') := Reply(|content|, pos, last, n);
    if r == 0 then [] else content[pos..pos + r] + Drain(content, pos', last', n)
  }

  /** One reply of a drain. */
  lemma DrainFirst(content: seq<Byte>, pos: nat, last: int, n: nat)
    requires n > 0 && pos <= |content| && (last == 0 || last == 1)
    ensures var (r, pos', last') := Reply(|content|, pos, last, n);
      && pos <= pos' <= |content| && (last' == 0 || last' == 1) && (r > 0 ==> pos' > pos || last' > last)
      && Drain(content, pos, last, n) == if r == 0 then [] else content[pos..pos + r] + Drain(content, pos', last', n)
  {
  }

  /** The first piece and what the later calls bring are the drain. */
  lemma DrainPiece(content: seq<Byte>, pos: nat, last: int, n: nat, piece: seq<Byte>, rest: seq<Byte>)
    requires n > 0 && pos <= |content| && (last == 0 || last == 1) && piece != []
    requires pos + |piece| <= |content| && piece == content[pos..pos + |piece|]
    requires |piece| == Reply(|content|, pos, last, n).0
    requires var (_, pos', last') := Reply(|content|, pos, last, n); rest == Drain(content, pos', last', n)
    ensures piece + rest == Drain(content, pos, last, n)
  {
  }

  /** A piece in front of the next one and what follows. */
  lemma Prepend(content: seq<Byte>, pos: nat, mid: nat, end: nat, more: seq<Byte>)
    requires pos <= mid <= end <= |content|
    ensures content[pos..mid] + (content[mid..end] + more) == content[pos..end] + more
  {
  }

  /** From a fresh open the pieces are the file: every byte once, in order, for every chunk size. */
  lemma {:induction false} DrainIsWholeFile(content: seq<Byte>, pos: nat, n: nat)
    requires n > 0 && pos <= |content|
    ensures Drain(content, pos, 0, n) == content[pos..]
    decreases |content| - pos
  {
    if pos + n <= |content| {
      DrainIsWholeFile(content, pos + n, n);
      assert content[pos..pos + n] + content[pos + n..] == content[pos..];
    } else if pos < |content| {
      assert Drain(content, pos, 1, n) == [];
      assert content[pos..|content|] == content[pos..];
    } else {
    }
  }

  /** Where the whole chunks end. */
  function Whole(len: nat, pos: nat, n: nat): (at: nat)
    requires n > 0 && pos <= len
    ensures pos <= at <= len < at + n
    decreases len - pos
  {
    if pos + n > len then pos else Whole(len, pos + n, n)
  }

  lemma {:induction false} WholeLeavesTail(len: nat, pos: nat, n: nat)
    requires n > 0 && pos <= len
    ensures len - Whole(len, pos, n) == (len - pos) % n
    decreases len - pos
  {
    if pos + n > len {
      ModSmall(len - pos, n);
    } else {
      WholeLeavesTail(len, pos + n, n);
      ModStep(len - pos, n);
    }
  }

  /** With the flag set, whole chunks only are delivered. */
  lemma {:induction false} StaleDrain(content: seq<Byte>, pos: nat, n: nat)
    requires n > 0 && pos <= |content|
    ensures Drain(content, pos, 1, n) == content[pos..Whole(|content|, pos, n)]
    decreases |content| - pos
  {
    if pos + n > |content| {
    } else {
      StaleDrain(content, pos + n, n);
      var end := Whole(|content|, pos, n);
      assert content[pos..pos + n] + content[pos + n..end] == content[pos..end];
    }
  }

  /** `last_round` is shared by all descriptors.  A drain that starts with the flag another
      descriptor left set loses the last partial chunk: it is whole exactly when `n` divides the rest. */
  lemma StaleFlagLosesTail(content: seq<Byte>, pos: nat, n: nat)
    requires n > 0 && pos <= |content|
    ensures |Drain(content, pos, 1, n)| == |content| - pos - (|content| - pos) % n
    ensures Drain(content, pos, 1, n) == content[pos..pos + |Drain(content, pos, 1, n)|]
    ensures Drain(content, pos, 1, n) == content[pos..] <==> (|content| - pos) % n == 0
  {
    StaleDrain(content, pos, n);
    WholeLeavesTail(|content|, pos, n);
    assert |content[pos..]| == |content| - pos;
  }

  lemma ModStep(a: nat, n: nat)
    requires 0 < n <= a
    ensures a % n == (a - n) % n
  {
    var q := (a - n) / n;
    assert a - n == n * q + (a - n) % n;
    assert a == n * (q + 1) + (a - n) % n;
    DivModUnique(a, n, q + 1, (a - n) % n);
  }

  lemma ModSmall(a: nat, n: nat)
    requires a < n
    ensures a % n == a
  {
  }

  /** The flag a complete drain leaves behind: set exactly when the last chunk fitted exactly. */
  function FlagAfterDrain(len: nat, pos: nat, last: int, n: nat): int
    requires n > 0 && pos <= len && (last == 0 || last == 1)
    decreases len - pos, 1 - last
  {
    var (r, pos', last') := Reply(len, pos, last, n);
    if r == 0 then last' else FlagAfterDrain(len, pos', last', n)
  }

  lemma {:induction false} ExactFitLeavesFlagSet(len: nat, pos: nat, n: nat)
    requires n > 0 && pos <= len
    ensures FlagAfterDrain(len, pos, 0, n) == 1 <==> (len - pos) % n == 0
    decreases len - pos
  {
    if pos + n <= len {
      ExactFitLeavesFlagSet(len, pos + n, n);
      ModStep(len - pos, n);
    } else {
      ModSmall(len - pos, n);
    }
  }

  // --------------------------------------------- a flag that others change

  /** What a reader of `n` bytes at a time collects when its calls find `last_round` at these values,
      whatever other readers and opens do to the flag in between. */
  function SharedDrain(content: seq<Byte>, pos: nat, flags: seq<int>, n: nat): seq<Byte>
    requires pos <= |content|
    decreases |flags|
  {
    if flags == [] then []
    else
      var (r, pos', _) := Reply(|content|, pos, flags[0], n);
      if r == 0 then [] else content[pos..pos + r] + SharedDrain(content, pos', flags[1..], n)
  }

  predicate SharedFinishes(len: nat, pos: nat, flags: seq<int>, n: nat)
    requires pos <= len
    decreases |flags|
  {
    flags != [] &&
    var (r, pos', _) := Reply(len, pos, flags[0], n);
    r == 0 || SharedFinishes(len, pos', flags[1..], n)
  }

  /** The flags found from the first request past the end on. */
  function FromShortRead(len: nat, pos: nat, flags: seq<int>, n: nat): (seen: seq<int>)
    ensures |seen| <= |flags|
    decreases |flags|
  {
    if flags == [] || pos + n > len then flags else FromShortRead(len, pos + n, flags[1..], n)
  }

  function LeadingZeros(flags: seq<int>): (z: nat)
    ensures z <= |flags|
  {
    if flags == [] || flags[0] != 0 then 0 else 1 + LeadingZeros(flags[1..])
  }

  function Times(s: seq<Byte>, m: nat): seq<Byte> { if m == 0 then [] else s + Times(s, m - 1) }

  ghost predicate Flags(flags: seq<int>) {
    forall i :: 0 <= i < |flags| ==> flags[i] == 0 || flags[i] == 1
  }

  /** Behind the last whole chunk the tail arrives once for every 0 found, up to the first 1. */
  lemma {:induction false} SharedTail(content: seq<Byte>, pos: nat, flags: seq<int>, n: nat)
    requires pos < |content| < pos + n && Flags(flags) && SharedFinishes(|content|, pos, flags, n)
    ensures SharedDrain(content, pos, flags, n) == Times(content[pos..], LeadingZeros(flags))
    decreases |flags|
  {
    if flags[0] != 0 {
    } else {
      SharedTail(content, pos, flags[1..], n);
      assert content[pos..|content|] == content[pos..];
    }
  }

  /** What arrives of the tail behind `whole`, and how often. */
  function Again(content: seq<Byte>, whole: nat, seen: seq<int>): seq<Byte>
    requires whole <= |content|
  {
    if whole == |content| then [] else Times(content[whole..], LeadingZeros(seen))
  }

  lemma WholeChunk(content: seq<Byte>, pos: nat, flags: seq<int>, n: nat, end: nat, more: seq<Byte>)
    requires flags != [] && 0 < n && pos + n <= end <= |content|
    requires SharedDrain(content, pos + n, flags[1..], n) == content[pos + n..end] + more
    ensures SharedDrain(content, pos, flags, n) == content[pos..end] + more
  {
    Prepend(content, pos, pos + n, end, more);
  }

  lemma {:induction false} SharedDrainIs(content: seq<Byte>, pos: nat, flags: seq<int>, n: nat)
    requires n > 0 && pos <= |content| && Flags(flags) && SharedFinishes(|content|, pos, flags, n)
    ensures var whole := Whole(|content|, pos, n);
      SharedDrain(content, pos, flags, n)
        == content[pos..whole] + Again(content, whole, FromShortRead(|content|, pos, flags, n))
    decreases |flags|
  {
    if pos + n <= |content| {
      SharedDrainIs(content, pos + n, flags[1..], n);
      var whole := Whole(|content|, pos, n);
      WholeChunk(content, pos, flags, n, whole, Again(content, whole, FromShortRead(|content|, pos, flags, n)));
    } else {
      SharedEnd(content, pos, flags, n);
    }
  }

  lemma SharedEnd(content: seq<Byte>, pos: nat, flags: seq<int>, n: nat)
    requires pos <= |content| < pos + n && Flags(flags) && SharedFinishes(|content|, pos, flags, n)
    ensures SharedDrain(content, pos, flags, n) == content[pos..pos] + Again(content, pos, flags)
  {
    if pos < |content| { SharedTail(content, pos, flags, n); }
    assert content[pos..pos] + Again(content, pos, flags) == Again(content, pos, flags);
  }

  lemma TimesLength(s: seq<Byte>, m: nat)
    requires s != []
    ensures m == 0 ==> Times(s, m) == []
    ensures m == 1 ==> Times(s, m) == s
    ensures m >= 2 ==> |Times(s, m)| > |s|
  {
    if m >= 2 {
      assert Times(s, m) == s + Times(s, m - 1) && Times(s, m - 1) == s + Times(s, m - 2);
    }
  }

  /** Whatever others do to the shared flag, a reader gets its whole chunks.  Its tail, if it has one,
      arrives once for every call from the short read on that finds a 0, until one finds a 1: the
      file is whole exactly when the short read finds 0 and the call after it finds 1. */
  lemma SharedDrainExactly(content: seq<Byte>, pos: nat, flags: seq<int>, n: nat)
    requires n > 0 && pos <= |content| && Flags(flags) && SharedFinishes(|content|, pos, flags, n)
    ensures var len, whole := |content|, Whole(|content|, pos, n);
      var z := LeadingZeros(FromShortRead(len, pos, flags, n));
      && len - whole == (len - pos) % n
      && SharedDrain(content, pos, flags, n)
           == content[pos..whole] + (if whole == len then [] else Times(content[whole..], z))
      && (SharedDrain(content, pos, flags, n) == content[pos..] <==> whole == len || z == 1)
  {
    SharedDrainIs(content, pos, flags, n);
    WholeLeavesTail(|content|, pos, n);
    WholeAndTail(content, pos, Whole(|content|, pos, n), LeadingZeros(FromShortRead(|content|, pos, flags, n)));
  }

  lemma WholeAndTail(content: seq<Byte>, pos: nat, whole: nat, z: nat)
    requires pos <= whole <= |content|
    ensures whole == |content| ==> content[pos..whole] == content[pos..]
    ensures whole < |content| ==> (content[pos..whole] + Times(content[whole..], z) == content[pos..] <==> z == 1)
  {
    assert content[pos..] == content[pos..whole] + content[whole..];
    if whole < |content| {
      TimesLength(content[whole..], z);
      assert |content[pos..whole] + Times(content[whole..], z)| == (whole - pos) + |Times(content[whole..], z)|;
    }
  }

  /** The flags one of two readers finds when the calls on two files alternate as `turns` says:
      `mine` tells whose calls are asked for, and both ask for `n` bytes. */
  function FlagsSeen(lenA: nat, posA: nat, lenB: nat, posB: nat, last: int, n: nat, turns: seq<bool>, mine: bool)
    : seq<int>
    requires posA <= lenA && posB <= lenB
    decreases |turns|
  {
    if turns == [] then []
    else
      var (_, pos', last') := if turns[0] then Reply(lenA, posA, last, n) else Reply(lenB, posB, last, n);
      (if turns[0] == mine then [last] else [])
      + if turns[0] then FlagsSeen(lenA, pos', lenB, posB, last', n, turns[1..], mine)
        else FlagsSeen(lenA, posA, lenB, pos', last', n, turns[1..], mine)
  }

  lemma FlagsSeenFirst(lenA: nat, posA: nat, lenB: nat, posB: nat, last: int, n: nat,
                       turn: bool, turns: seq<bool>, mine: bool)
    requires posA <= lenA && posB <= lenB
    ensures FlagsSeen(lenA, posA, lenB, posB, last, n, [turn] + turns, mine) ==
      var (_, pos', last') := if turn then Reply(lenA, posA, last, n) else Reply(lenB, posB, last, n);
      (if turn == mine then [last] else [])
      + if turn then FlagsSeen(lenA, pos', lenB, posB, last', n, turns, mine)
        else FlagsSeen(lenA, posA, lenB, pos', last', n, turns, mine)
  {
    assert ([turn] + turns)[1..] == turns;
  }

  lemma TwoReadersFlags(mine: bool)
    ensures FlagsSeen(1, 0, 1, 0, 0, 2, [true, false, true, true], mine) == if mine then [0, 0, 1] else [1]
  {
    FlagsSeenFirst(1, 0, 1, 0, 1, 2, true, [], mine);
    FlagsSeenFirst(1, 0, 1, 0, 0, 2, true, [true], mine);
    FlagsSeenFirst(1, 0, 1, 0, 1, 2, false, [true, true], mine);
    FlagsSeenFirst(1, 0, 1, 0, 0, 2, true, [false, true, true], mine);
    assert [true] + [] == [true] && [true] + [true] == [true, true];
    assert [false] + [true, true] == [false, true, true] && [true] + [false, true, true] == [true, false, true, true];
  }

  lemma SeesOne(content: seq<Byte>)
    requires |content| == 1
    ensures SharedDrain(content, 0, [1], 2) == []
  {
  }

  lemma SeesZeroOne(content: seq<Byte>)
    requires |content| == 1
    ensures SharedDrain(content, 0, [0, 1], 2) == content
  {
    SeesOne(content);
    assert [0, 1][1..] == [1] && content[0..1] + [] == content;
  }

  lemma SeesZeroZeroOne(content: seq<Byte>)
    requires |content| == 1
    ensures SharedDrain(content, 0, [0, 0, 1], 2) == content + content
  {
    SeesZeroOne(content);
    assert [0, 0, 1][1..] == [0, 1] && content[0..1] == content;
  }

  /** Two readers of one-byte files that take turns from a fresh open: the first gets its byte twice,
      the second none. */
  lemma TwoReadersSpoilEachOther(a: seq<Byte>, b: seq<Byte>)
    requires |a| == 1 && |b| == 1
    ensures var turns := [true, false, true, true];
      && FlagsSeen(1, 0, 1, 0, 0, 2, turns, true) == [0, 0, 1] && FlagsSeen(1, 0, 1, 0, 0, 2, turns, false) == [1]
      && SharedDrain(a, 0, [0, 0, 1], 2) == a + a && SharedDrain(b, 0, [1], 2) == []
  {
    TwoReadersFlags(true);
    TwoReadersFlags(false);
    SeesOne(b);
    SeesZeroZeroOne(a);
  }

  // ----------------------------------------------- requests of varying size

  ghost predicate Positive(sizes: seq<nat>) {
    forall i :: 0 <= i < |sizes| ==> sizes[i] > 0
  }

  /** What a reader collects whose requests have these sizes, up to the first 0. */
  function DrainBy(content: seq<Byte>, pos: nat, last: int, sizes: seq<nat>): seq<Byte>
    requires pos <= |content|
    decreases |sizes|
  {
    if sizes == [] then []
    else
      var (r, pos', last') := Reply(|content|, pos, last, sizes[0]);
      if r == 0 then [] else content[pos..pos + r] + DrainBy(content, pos', last', sizes[1..])
  }

  /** One of the requests is answered with 0. */
  predicate Finishes(len: nat, pos: nat, last: int, sizes: seq<nat>)
    requires pos <= len
    decreases |sizes|
  {
    sizes != [] &&
    var (r, pos', last') := Reply(len, pos, last, sizes[0]);
    r == 0 || Finishes(len, pos', last', sizes[1..])
  }

  /** The position at which the first request reaches past the end. */
  function Reach(len: nat, pos: nat, sizes: seq<nat>): (at: nat)
    requires pos <= len
    ensures pos <= at <= len
    decreases |sizes|
  {
    if sizes == [] || pos + sizes[0] > len then pos else Reach(len, pos + sizes[0], sizes[1..])
  }

  /** The requests behind that one. */
  function Behind(len: nat, pos: nat, sizes: seq<nat>): (more: seq<nat>)
    requires pos <= len
    ensures Positive(sizes) ==> Positive(more)
    decreases |sizes|
  {
    if sizes == [] then [] else if pos + sizes[0] > len then sizes[1..] else Behind(len, pos + sizes[0], sizes[1..])
  }

  /** A request that fits, in front of what the others bring. */
  lemma WholeRequest(content: seq<Byte>, pos: nat, last: int, sizes: seq<nat>, end: nat, more: seq<Byte>)
    requires sizes != [] && 0 < sizes[0] && pos + sizes[0] <= end <= |content|
    requires DrainBy(content, pos + sizes[0], last, sizes[1..]) == content[pos + sizes[0]..end] + more
    ensures DrainBy(content, pos, last, sizes) == content[pos..end] + more
  {
    Prepend(content, pos, pos + sizes[0], end, more);
  }

  /** With the flag set the first request past the end finishes, whatever is left. */
  lemma {:induction false} StaleDrainBy(content: seq<Byte>, pos: nat, sizes: seq<nat>)
    requires pos <= |content| && Positive(sizes) && Finishes(|content|, pos, 1, sizes)
    ensures DrainBy(content, pos, 1, sizes) == content[pos..Reach(|content|, pos, sizes)] + []
    decreases |sizes|
  {
    var n := sizes[0];
    if pos + n > |content| {
    } else {
      StaleDrainBy(content, pos + n, sizes[1..]);
      WholeRequest(content, pos, 1, sizes, Reach(|content|, pos, sizes), []);
    }
  }

  /** What arrives again once the short read at `at` has been answered. */
  function Repeated(content: seq<Byte>, at: nat, more: seq<nat>): seq<Byte>
    requires at <= |content|
  {
    if at < |content| then content[at..Reach(|content|, at, more)] else []
  }

  lemma NothingBehind(s: seq<Byte>, more: seq<Byte>)
    ensures s + more == s <==> |more| == 0
  {
    assert |s + more| == |s| + |more|;
  }

  /** The short read, in front of what the others bring. */
  lemma ShortRequest(content: seq<Byte>, pos: nat, sizes: seq<nat>, more: seq<Byte>)
    requires pos < |content| && sizes != [] && pos + sizes[0] > |content|
    requires DrainBy(content, pos, 1, sizes[1..]) == more
    ensures DrainBy(content, pos, 0, sizes) == content[pos..|content|] + more
  {
  }

  lemma VaryingEnd(content: seq<Byte>, pos: nat, sizes: seq<nat>)
    requires pos < |content| && Positive(sizes) && Finishes(|content|, pos, 0, sizes) && pos + sizes[0] > |content|
    ensures sizes[1..] != []
    ensures DrainBy(content, pos, 0, sizes) == content[pos..|content|] + Repeated(content, pos, sizes[1..])
  {
    StaleDrainBy(content, pos, sizes[1..]);
    var back := Repeated(content, pos, sizes[1..]);
    NothingBehind(back, []);
    ShortRequest(content, pos, sizes, back);
  }

  lemma {:induction false} VaryingDrain(content: seq<Byte>, pos: nat, sizes: seq<nat>)
    requires pos <= |content| && Positive(sizes) && Finishes(|content|, pos, 0, sizes)
    ensures var at, more := Reach(|content|, pos, sizes), Behind(|content|, pos, sizes);
      && (at < |content| ==> more != [])
      && DrainBy(content, pos, 0, sizes) == content[pos..|content|] + Repeated(content, at, more)
    decreases |sizes|
  {
    var n, rest := sizes[0], sizes[1..];
    if pos + n <= |content| {
      VaryingDrain(content, pos + n, rest);
      var at, more := Reach(|content|, pos, sizes), Behind(|content|, pos, sizes);
      WholeRequest(content, pos, 0, sizes, |content|, Repeated(content, at, more));
    } else if pos < |content| {
      VaryingEnd(content, pos, sizes);
    } else {
      assert DrainBy(content, pos, 0, sizes) == [];
      NothingBehind(content[pos..|content|], []);
    }
  }

  /** Requests of any sizes after a fresh open.  The first one that reaches past the end gets the short
      rest without moving the position; if smaller requests follow, the rest is delivered again as far
      as they fit.  So the reader has the file exactly when the request after the short read overruns too. */
  lemma VaryingDrainExactly(content: seq<Byte>, pos: nat, sizes: seq<nat>)
    requires pos <= |content| && Positive(sizes) && Finishes(|content|, pos, 0, sizes)
    ensures var len, at, more := |content|, Reach(|content|, pos, sizes), Behind(|content|, pos, sizes);
      && (at < len ==> more != [])
      && DrainBy(content, pos, 0, sizes) == content[pos..] + Repeated(content, at, more)
      && (DrainBy(content, pos, 0, sizes) == content[pos..] <==> at == len || at + more[0] > len)
  {
    VaryingDrain(content, pos, sizes);
    var len, at, more := |content|, Reach(|content|, pos, sizes), Behind(|content|, pos, sizes);
    if at < len {
      assert Reach(len, at, more) == at <==> at + more[0] > len;
    }
    assert content[pos..len] == content[pos..];
    NothingBehind(content[pos..], Repeated(content, at, more));
  }

  lemma DrainByFirst(content: seq<Byte>, pos: nat, last: int, n: nat, sizes: seq<nat>)
    requires pos <= |content|
    ensures var (r, pos', last') := Reply(|content|, pos, last, n);
      && (Finishes(|content|, pos, last, [n] + sizes) <==> r == 0 || Finishes(|content|, pos', last', sizes))
      && DrainBy(content, pos, last, [n] + sizes)
           == if r == 0 then [] else content[pos..pos + r] + DrainBy(content, pos', last', sizes)
  {
    assert ([n] + sizes)[1..] == sizes;
  }

  /** It does go wrong: a one-byte file read by requests for 2, 1 and 1 bytes arrives twice. */
  lemma SmallerRequestRepeats(content: seq<Byte>)
    requires |content| == 1
    ensures Finishes(1, 0, 0, [2, 1, 1]) && DrainBy(content, 0, 0, [2, 1, 1]) == content + content
  {
    SmallRequestsInStale(content);
    DrainByFirst(content, 0, 0, 2, [1, 1]);
    assert [2] + [1, 1] == [2, 1, 1] && content[0..1] == content;
  }

  lemma SmallRequestsInStale(content: seq<Byte>)
    requires |content| == 1
    ensures Finishes(1, 0, 1, [1, 1]) && DrainBy(content, 0, 1, [1, 1]) == content
  {
    DrainByFirst(content, 1, 1, 1, []);
    DrainByFirst(content, 0, 1, 1, [1]);
    assert [1] + [] == [1] && [1] + [1] == [1, 1] && content[0..1] + [] == content;
  }

  /** Requests of one size are the constant drain. */
  lemma {:induction false} ConstantSizes(content: seq<Byte>, pos: nat, last: int, n: nat, sizes: seq<nat>)
    requires n > 0 && pos <= |content| && (last == 0 || last == 1) && Finishes(|content|, pos, last, sizes)
    requires forall i :: 0 <= i < |sizes| ==> sizes[i] == n
    ensures DrainBy(content, pos, last, sizes) == Drain(content, pos, last, n)
    decreases |sizes|
  {
    var (r, pos', last') := Reply(|content|, pos, last, n);
    if r == 0 {
    } else {
      ConstantSizes(content, pos', last', n, sizes[1..]);
    }
  }
}
