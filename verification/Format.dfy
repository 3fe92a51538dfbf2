/**
 Numbers as text (itoa, strrev, strlen and the number cases of printf in lib.c).
 A C string is a stretch of a character array that ends at the first NUL.
 */
module Format {
  import opened Common

  /** `a[from..end]` is a C string: its first NUL is at `end`. */
  ghost predicate Terminated(a: seq<char>, from: nat, end: nat) {
    from <= end < |a| && a[end] == NUL && forall k :: from <= k < end ==> a[k] != NUL
  }

  // ------------------------------------------------------------ specification

  /** The character `lookup[d]`. */
  function Digit(d: nat): (c: char)
    requires d < 36
    ensures c != NUL && (c == '0' <==> d == 0) && ValueOf(c) == d
  {
    "0123456789ABCDEFGHIJKLMNOPQRSTUVWXYZ"[d]
  }

  /** The ten digits, then the capital letters, by their codes. */
  lemma DigitCodes(d: nat)
    requires d < 36
    ensures Digit(d) as int == if d < 10 then 48 + d else 55 + d
  {
  }

  function ValueOf(c: char): nat {
    if '0' <= c <= '9' then (c - '0') as nat
    else if 'A' <= c <= 'Z' then (c - 'A') as nat + 10
    else 0
  }

  /** The digits of a positive number, most significant first; none for 0. */
  function Places(v: nat, radix: nat): (s: string)
    requires 2 <= radix <= 36
    ensures NUL !in s && (s == [] <==> v == 0)
    decreases v
  {
    if v == 0 then [] else Places(Shrink(v, radix), radix) + [Digit(v % radix)]
  }

  /** `v / radix`, smaller than a positive `v`. */
  function Shrink(v: nat, radix: nat): (q: nat)
    requires 2 <= radix
    ensures v > 0 ==> q < v
    ensures q == v / radix && v == q * radix + v % radix
  {
    FundamentalDivMod(v, radix);
    QuotientIsSmaller(v, radix);
    v / radix
  }

  lemma QuotientIsSmaller(x: nat, d: nat)
    requires d >= 2
    ensures x > 0 ==> x / d < x
  {
    FundamentalDivMod(x, d);
    MulMono(2, d, x / d);
  }

  function Digits(v: nat, radix: nat): (s: string)
    requires 2 <= radix <= 36
    ensures NUL !in s && s != []
  {
    if v == 0 then "0" else Places(v, radix)
  }

  /** Reading digits back. */
  function Parse(s: string, radix: nat): nat {
    if s == [] then 0 else Parse(s[..|s| - 1], radix) * radix + ValueOf(s[|s| - 1])
  }

  lemma {:induction false} ParsePlaces(v: nat, radix: nat)
    requires 2 <= radix <= 36
    ensures Parse(Places(v, radix), radix) == v
    decreases v
  {
    if v == 0 {
    } else {
      var q := Shrink(v, radix);
      ParsePlaces(q, radix);
      var s := Places(v, radix);
      assert s[..|s| - 1] == Places(q, radix);
    }
  }

  /** Formatting then reading is the identity for every value and radix; no leading zero but "0" itself. */
  lemma RoundTrip(v: nat, radix: nat)
    requires 2 <= radix <= 36
    ensures Parse(Digits(v, radix), radix) == v
    ensures v > 0 ==> Digits(v, radix)[0] != '0'
  {
    if v == 0 {
      assert "0"[..0] == "";
    } else {
      ParsePlaces(v, radix);
      NoLeadingZero(v, radix);
    }
  }

  lemma {:induction false} NoLeadingZero(v: nat, radix: nat)
    requires 2 <= radix <= 36 && v > 0
    ensures Places(v, radix)[0] != '0'
    decreases v
  {
    var q := Shrink(v, radix);
    if q == 0 {
    } else {
      NoLeadingZero(q, radix);
    }
  }

  /** Different values have different texts. */
  lemma DigitsInjective(v: nat, w: nat, radix: nat)
    requires 2 <= radix <= 36 && Digits(v, radix) == Digits(w, radix)
    ensures v == w
  {
    RoundTrip(v, radix);
    RoundTrip(w, radix);
  }

  function Pow(b: nat, n: nat): nat { if n == 0 then 1 else b * Pow(b, n - 1) }

  lemma DivBelow(v: nat, radix: nat, bound: nat)
    requires radix >= 2 && v < radix * bound
    ensures v / radix < bound
  {
    MulMono(bound, Shrink(v, radix), radix);
  }

  lemma MulMono(a: nat, b: nat, c: nat)
    ensures a <= b ==> a * c <= b * c
  {
  }

  /** A number below radix^n takes at most n digits. */
  lemma {:induction false} PlacesBound(v: nat, radix: nat, n: nat)
    requires 2 <= radix <= 36 && v < Pow(radix, n)
    ensures |Places(v, radix)| <= n
    decreases n
  {
    if v == 0 {
    } else {
      DivBelow(v, radix, Pow(radix, n - 1));
      PlacesBound(Shrink(v, radix), radix, n - 1);
    }
  }

  lemma {:induction false} PowGrows(radix: nat, n: nat)
    requires radix >= 2
    ensures Pow(radix, n) >= Pow(2, n)
  {
    if n == 0 {
    } else {
      PowGrows(radix, n - 1);
      assert radix * Pow(radix, n - 1) >= 2 * Pow(radix, n - 1);
    }
  }

  lemma {:induction false} PowAdd(b: nat, m: nat, n: nat)
    ensures Pow(b, m + n) == Pow(b, m) * Pow(b, n)
    decreases m
  {
    if m == 0 {
    } else {
      PowAdd(b, m - 1, n);
      MulAssociates(b, Pow(b, m - 1), Pow(b, n));
    }
  }

  lemma MulAssociates(a: nat, b: nat, c: nat)
    ensures a * (b * c) == (a * b) * c
  {
  }

  lemma Power32()
    ensures Pow(2, 32) == UINT32 && Pow(16, 8) == UINT32 && Pow(10, 10) > UINT32
  {
    PowAdd(2, 8, 8);
    PowAdd(2, 16, 16);
    PowAdd(16, 4, 4);
    PowAdd(10, 5, 5);
    assert Pow(2, 8) == 256;
    assert Pow(16, 4) == 65536;
    assert Pow(10, 5) == 100000;
  }

  /** Every 32-bit value fits the buffers of printf: 32 digits at most, 8 in hexadecimal, 10 in decimal. */
  lemma LengthBounds(v: nat, radix: nat)
    requires v < UINT32 && 2 <= radix <= 36
    ensures |Digits(v, radix)| <= 32
    ensures radix == 16 ==> |Digits(v, radix)| <= 8
    ensures radix == 10 ==> |Digits(v, radix)| <= 10
  {
    Power32();
    PowGrows(radix, 32);
    PlacesBound(v, radix, 32);
    if radix == 16 { PlacesBound(v, 16, 8); }
    if radix == 10 { PlacesBound(v, 10, 10); }
  }

  // --------------------------------------------------------------- in memory

  method Strlen(s: array<char>, from: nat, ghost end: nat) returns (len: nat)
    requires Terminated(s[..], from, end)
    ensures len == end - from
  {
    len := 0;
    while s[from + len] != NUL
      invariant from + len <= end
      decreases end - len
    {
      len := len + 1;
    }
  }

  function Reversed(s: string): (r: string)
    ensures |r| == |s| && forall i :: 0 <= i < |s| ==> r[i] == s[|s| - 1 - i]
  {
    seq(|s|, i requires 0 <= i < |s| => s[|s| - 1 - i])
  }

  lemma ReversedAt(s: string, r: string)
    requires |r| == |s| && forall i :: 0 <= i < |r| ==> r[i] == s[|s| - 1 - i]
    ensures r == Reversed(s)
  {
  }

  /** strrev: the string is turned round in place, everything else stays. */
  method Strrev(s: array<char>, from: nat, ghost end: nat)
    requires Terminated(s[..], from, end)
    modifies s
    ensures s[from..end] == Reversed(old(s[from..end]))
    ensures forall k :: 0 <= k < from || end <= k < s.Length ==> s[k] == old(s[k])
  {
    ghost var was := s[..];
    var len := Strlen(s, from, end);
    var beg: int, last: int := from, from + len - 1;
    while beg < last
      invariant from <= beg <= last + 2 && beg + last == from + end - 1
      invariant forall k :: 0 <= k < from || end <= k < s.Length || beg <= k <= last ==> s[k] == was[k]
      invariant forall k :: from <= k < beg || last < k < end ==> s[k] == was[from + end - 1 - k]
    {
      var tmp := s[last];
      s[last] := s[beg];
      s[beg] := tmp;
      beg := beg + 1;
      last := last - 1;
    }
    ReversedAt(was[from..end], s[from..end]);
  }

  /** The digits from the lowest place up, the order the loop of itoa produces. */
  lemma {:induction false} PlacesReversed(low: string, v: nat, radix: nat)
    requires 2 <= radix <= 36 && v > 0
    ensures Reversed(low + [Digit(v % radix)]) == [Digit(v % radix)] + Reversed(low)
  {
    var s := low + [Digit(v % radix)];
    assert forall i :: 0 <= i < |s| ==> Reversed(s)[i] == ([Digit(v % radix)] + Reversed(low))[i];
  }

  /** One round of that loop: the places still to come and those behind them make up the number. */
  lemma OnePlaceMore(low: string, rest: nat, radix: nat, d: string)
    requires 2 <= radix <= 36 && rest > 0 && Places(rest, radix) + Reversed(low) == d
    ensures |low| < |d| && Places(Shrink(rest, radix), radix) + Reversed(low + [Digit(rest % radix)]) == d
  {
    PlacesReversed(low, rest, radix);
    assert Places(rest, radix) + Reversed(low)
      == Places(Shrink(rest, radix), radix) + ([Digit(rest % radix)] + Reversed(low));
  }

  /** The loop of itoa: places from the lowest up. */
  method BuildPlaces(value: nat, s: array<char>, at: nat, radix: nat) returns (p: nat, ghost low: string)
    requires 2 <= radix <= 36 && at + |Places(value, radix)| < s.Length
    modifies s
    ensures Reversed(low) == Places(value, radix) && NUL !in low
    ensures p == at + |low| && s[at..p] == low
    ensures forall k :: 0 <= k < at || p <= k < s.Length ==> s[k] == old(s[k])
  {
    ghost var d := Places(value, radix);
    var rest: nat := value;
    p, low := at, "";
    while rest > 0
      invariant p == at + |low| <= at + |d| && s[at..p] == low
      invariant Places(rest, radix) + Reversed(low) == d && NUL !in low
      invariant forall k :: 0 <= k < at || p <= k < s.Length ==> s[k] == old(s[k])
      decreases rest
    {
      OnePlaceMore(low, rest, radix, d);
      s[p] := Digit(rest % radix);
      low := low + [Digit(rest % radix)];
      assert s[at..p + 1] == low;
      p := p + 1;
      rest := Shrink(rest, radix);
    }
    assert Reversed(low) == d;
  }

  /** And the NUL behind them. */
  method BuildBackwards(value: nat, s: array<char>, at: nat, radix: nat) returns (p: nat)
    requires 2 <= radix <= 36 && value > 0 && at + |Places(value, radix)| < s.Length
    modifies s
    ensures p == at + |Places(value, radix)| && Terminated(s[..], at, p)
    ensures Reversed(s[at..p]) == Places(value, radix)
    ensures forall k :: 0 <= k < at || p < k < s.Length ==> s[k] == old(s[k])
  {
    ghost var low;
    p, low := BuildPlaces(value, s, at, radix);
    s[p] := NUL;
    assert s[at..p] == low;
    TerminatedByText(s[..], at, low);
  }

  /** The text `d` and a NUL from `at` on, the rest as it was. */
  twostate predicate Holds(s: array<char>, at: nat, d: string)
    requires at + |d| < s.Length
    reads s
  {
    && s[at..at + |d|] == d && s[at + |d|] == NUL
    && forall k :: 0 <= k < at || at + |d| < k < s.Length ==> s[k] == old(s[k])
  }

  method ItoaPositive(value: nat, s: array<char>, at: nat, radix: nat)
    requires 2 <= radix <= 36 && value > 0 && at + |Places(value, radix)| < s.Length
    modifies s
    ensures Holds(s, at, Places(value, radix))
  {
    var p := BuildBackwards(value, s, at, radix);
    Strrev(s, at, p);
  }

  method ItoaZero(s: array<char>, at: nat)
    requires at + 1 < s.Length
    modifies s
    ensures Holds(s, at, "0")
  {
    s[at] := '0';
    s[at + 1] := NUL;
  }

  /** itoa: `s[at..]` becomes the digits of `value` and a NUL; the rest stays. */
  method Itoa(value: nat, s: array<char>, at: nat, radix: nat)
    requires 2 <= radix <= 36 && at + |Digits(value, radix)| < s.Length
    modifies s
    ensures Holds(s, at, Digits(value, radix))
    ensures Terminated(s[..], at, at + |Digits(value, radix)|)
  {
    ghost var d := Digits(value, radix);
    if value == 0 {
      ItoaZero(s, at);
    } else {
      ItoaPositive(value, s, at, radix);
    }
    TerminatedByText(s[..], at, d);
  }

  lemma TerminatedByText(a: seq<char>, at: nat, text: string)
    requires at + |text| < |a| && a[at + |text|] == NUL && NUL !in text
    requires a[at..at + |text|] == text
    ensures Terminated(a, at, at + |text|)
  {
    forall k | at <= k < at + |text| ensures a[k] != NUL {
      assert a[k] == text[k - at];
    }
  }

  /** What puts prints. */
  method Puts(s: array<char>, from: nat, ghost end: nat) returns (out: string)
    requires Terminated(s[..], from, end)
    ensures out == s[from..end]
  {
    out := [];
    while s[from + |out|] != NUL
      invariant from + |out| <= end && out == s[from..from + |out|]
      decreases end - |out|
    {
      out := out + [s[from + |out|]];
    }
  }

  function Zeros(n: nat): (r: string)
    ensures |r| == n
  {
    if n == 0 then "" else Zeros(n - 1) + ['0']
  }

  lemma {:induction false} ParseZeros(n: nat, s: string, radix: nat)
    ensures Parse(Zeros(n) + s, radix) == Parse(s, radix)
    decreases n, |s|
  {
    if s == [] {
      assert Zeros(n) + s == Zeros(n);
      if n > 0 {
        assert Zeros(n)[..n - 1] == Zeros(n - 1) + "";
        ParseZeros(n - 1, "", radix);
      }
    } else {
      var t := Zeros(n) + s;
      assert t[..|t| - 1] == Zeros(n) + s[..|s| - 1];
      ParseZeros(n, s[..|s| - 1], radix);
    }
  }

  /** The padding loop: zeros from `start` up to the digits at 8. */
  method PadWithZeros(buf: array<char>, start: nat)
    requires start <= 8 < buf.Length
    modifies buf
    ensures buf[start..8] == Zeros(8 - start)
    ensures forall k :: 0 <= k < start || 8 <= k < buf.Length ==> buf[k] == old(buf[k])
  {
    var i := start;
    while i < 8
      invariant start <= i <= 8
      invariant buf[start..i] == Zeros(i - start)
      invariant forall k :: 0 <= k < start || 8 <= k < buf.Length ==> buf[k] == old(buf[k])
    {
      buf[i] := '0';
      assert buf[start..i + 1] == buf[start..i] + ['0'];
      i := i + 1;
    }
  }

  lemma {:induction false} ZerosAreZeros(n: nat)
    ensures forall i :: 0 <= i < n ==> Zeros(n)[i] == '0'
  {
    if n == 0 {
    } else {
      ZerosAreZeros(n - 1);
    }
  }

  /** Eight digits, zeros in front, that read back as the value. */
  lemma AlignedText(value: nat)
    requires value < UINT32
    ensures |Digits(value, 16)| <= 8
    ensures var text := Zeros(8 - |Digits(value, 16)|) + Digits(value, 16);
      |text| == 8 && NUL !in text && Parse(text, 16) == value
  {
    LengthBounds(value, 16);
    ZerosAreZeros(8 - |Digits(value, 16)|);
    ParseZeros(8 - |Digits(value, 16)|, Digits(value, 16), 16);
    RoundTrip(value, 16);
  }

  /** The digits at 8 and the zeros before them. */
  method BuildAligned(value: nat, buf: array<char>) returns (start: nat)
    requires value < UINT32 && buf.Length == 64 && |Digits(value, 16)| <= 8
    modifies buf
    ensures start == |Digits(value, 16)|
    ensures buf[start..start + 8] == Zeros(8 - start) + Digits(value, 16) && buf[start + 8] == NUL
  {
    ghost var d := Digits(value, 16);
    Itoa(value, buf, 8, 16);
    start := Strlen(buf, 8, 8 + |d|);
    PadWithZeros(buf, start);
    JoinAt(buf[..], start, 8, 8 + |d|);
    assert buf[8..8 + |d|] == d;
  }

  lemma JoinAt(a: seq<char>, i: nat, j: nat, k: nat)
    requires i <= j <= k <= |a|
    ensures a[i..k] == a[i..j] + a[j..k]
  {
  }

  /** printf("%#x"): exactly eight digits that read back as the value. */
  method PrintHexAligned(value: nat) returns (out: string)
    requires value < UINT32
    ensures |Digits(value, 16)| <= 8 && out == Zeros(8 - |Digits(value, 16)|) + Digits(value, 16)
    ensures |out| == 8 && Parse(out, 16) == value
  {
    AlignedText(value);
    var buf := new char[64](_ => NUL);
    var start := BuildAligned(value, buf);
    TerminatedByText(buf[..], start, Zeros(8 - start) + Digits(value, 16));
    out := Puts(buf, start, start + 8);
  }

  lemma SignedText(magnitude: nat)
    requires magnitude > 0
    ensures var out := ['-'] + Digits(magnitude, 10);
      |out| > 1 && out[0] == '-' && out[1] != '0' && Parse(out[1..], 10) == magnitude
  {
    RoundTrip(magnitude, 10);
    assert (['-'] + Digits(magnitude, 10))[1..] == Digits(magnitude, 10);
  }

  method PrintNegative(magnitude: nat, buf: array<char>) returns (out: string)
    requires 0 < magnitude <= 0x8000_0000 && buf.Length == 36
    modifies buf
    ensures out == ['-'] + Digits(magnitude, 10)
    ensures |out| > 1 && out[0] == '-' && Parse(out[1..], 10) == magnitude && out[1] != '0'
  {
    SignedText(magnitude);
    ghost var d := Digits(magnitude, 10);
    LengthBounds(magnitude, 10);
    buf[0] := '-';
    Itoa(magnitude, buf, 1, 10);
    assert Terminated(buf[..], 0, 1 + |d|) by {
      assert buf[0] == '-';
    }
    out := Puts(buf, 0, 1 + |d|);
    assert out == [buf[0]] + buf[1..1 + |d|];
  }

  /** printf("%u"). */
  method PrintUnsigned(value: nat, buf: array<char>) returns (out: string)
    requires value < UINT32 && buf.Length == 36
    modifies buf
    ensures out == Digits(value, 10) && Parse(out, 10) == value
  {
    LengthBounds(value, 10);
    RoundTrip(value, 10);
    Itoa(value, buf, 0, 10);
    out := Puts(buf, 0, |Digits(value, 10)|);
  }

  /** printf("%d"): a sign and the magnitude, for every 32-bit integer, the least one included. */
  method PrintSigned(value: int) returns (out: string)
    requires -0x8000_0000 <= value < 0x8000_0000
    ensures value >= 0 ==> out == Digits(value, 10) && Parse(out, 10) == value
    ensures value < 0 ==> |out| > 1 && out[0] == '-' && Parse(out[1..], 10) == -value && out[1] != '0'
  {
    var buf := new char[36](_ => NUL);
    if value < 0 {
      out := PrintNegative(-value, buf);
    } else {
      out := PrintUnsigned(value, buf);
    }
  }
}
