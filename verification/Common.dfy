/**
 Bytes, C strings, and the facts about division several parts need.
 */
module Common {

  type Byte = b: int | 0 <= b < 256

  const UINT32 := 0x1_0000_0000
  const NUL: char := '\0'

  /** The elements before the first `end`: a C string when `end` is the NUL. */
  function UpTo<T(==)>(s: seq<T>, end: T): (r: seq<T>)
    ensures r <= s && end !in r && (|r| < |s| ==> s[|r|] == end)
  {
    if s == [] || s[0] == end then [] else [s[0]] + UpTo(s[1..], end)
  }

  lemma {:induction false} UpToIs<T>(s: seq<T>, end: T, n: nat)
    requires n <= |s| && (forall i :: 0 <= i < n ==> s[i] != end) && (n < |s| ==> s[n] == end)
    ensures UpTo(s, end) == s[..n]
  {
    if n == 0 {
    } else {
      UpToIs(s[1..], end, n - 1);
      assert s[..n] == [s[0]] + s[1..][..n - 1];
    }
  }

  lemma FundamentalDivMod(x: nat, d: nat)
    requires d > 0
    ensures x == d * (x / d) + x % d && x == (x / d) * d + x % d && x % d <= x
  {
  }

  /** Quotient and remainder are the only numbers that make `a` up. */
  lemma DivModUnique(a: nat, n: nat, q: nat, r: nat)
    requires r < n && a == n * q + r
    ensures a / n == q && a % n == r
  {
    var k := q - a / n;
    assert n * k == n * q - n * (a / n);
    if k >= 1 {
      MulAtLeast(n, k);
    } else if k <= -1 {
      MulAtLeast(n, -k);  // n * -k == -(n * k)
    }
  }

  lemma MulAtLeast(n: nat, k: nat)
    requires k >= 1
    ensures n * k >= n
  {
  }
}
