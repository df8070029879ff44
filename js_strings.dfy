/** The JavaScript string built-ins the rewriting code relies on, stated over
    `seq<char>`: `indexOf`, `lastIndexOf`, `slice`, global literal replacement and
    the formatting of non-negative integers in base 10 and base 16. */
module JsStrings {

  /** `p` occurs in `s` starting at index `k`. */
  predicate OccursAt(s: string, p: string, k: int) {
    0 <= k && k + |p| <= |s| && s[k..k + |p|] == p
  }

  /** The `d`-th character of an occurrence is the `d`-th character of the pattern. */
  lemma OccursAtChar(s: string, p: string, k: int, d: nat)
    requires OccursAt(s, p, k) && d < |p|
    ensures s[k + d] == p[d]
  {
    assert s[k..k + |p|][d] == s[k + d];
  }

  /** A mismatch at one offset rules out an occurrence. */
  lemma NotOccursAt(s: string, p: string, k: int, d: nat)
    requires d < |p| && 0 <= k + d < |s| && s[k + d] != p[d]
    ensures !OccursAt(s, p, k)
  {
    if OccursAt(s, p, k) {
      OccursAtChar(s, p, k, d);
    }
  }

  /** `i` is the first occurrence of `p` at or after `from`. */
  predicate FirstFrom(s: string, p: string, from: int, i: int) {
    from <= i && OccursAt(s, p, i) && forall k :: from <= k < i ==> !OccursAt(s, p, k)
  }

  /** `i` is the last occurrence of `p`. */
  predicate LastAt(s: string, p: string, i: int) {
    OccursAt(s, p, i) && forall k :: i < k <= |s| ==> !OccursAt(s, p, k)
  }

  predicate Contains(s: string, p: string) {
    exists k :: 0 <= k <= |s| && OccursAt(s, p, k)
  }

  predicate EndsWith(s: string, p: string) {
    |p| <= |s| && s[|s| - |p|..] == p
  }

  /** The first occurrence of `p` at or after `from`, or -1. */
  function IndexOfFrom(s: string, p: string, from: nat): (r: int)
    requires from <= |s|
    ensures r != -1 ==> FirstFrom(s, p, from, r)
    ensures r == -1 ==> forall k :: from <= k ==> !OccursAt(s, p, k)
    decreases |s| - from
  {
    if OccursAt(s, p, from) then from
    else if from + |p| >= |s| then -1
    else IndexOfFrom(s, p, from + 1)
  }

  /** Where `indexOf` starts looking: the position clamped to `0..|s|`. */
  function StartPosition(s: string, position: int): (r: nat)
    ensures r <= |s|
  {
    if position < 0 then 0 else if position > |s| then |s| else position
  }

  /** `s.indexOf(p, position)`: the first occurrence at or after the clamped
      position, or -1. */
  function IndexOf(s: string, p: string, position: int): (r: int)
    ensures r != -1 ==> FirstFrom(s, p, StartPosition(s, position), r)
    ensures r == -1 ==> forall k :: StartPosition(s, position) <= k ==> !OccursAt(s, p, k)
  {
    IndexOfFrom(s, p, StartPosition(s, position))
  }

  /** The first occurrence found is the one `indexOf` returns. */
  lemma IndexOfIs(s: string, p: string, position: int, i: int)
    requires FirstFrom(s, p, StartPosition(s, position), i)
    ensures IndexOf(s, p, position) == i
  {
  }

  /** The last occurrence is the one `lastIndexOf` returns. */
  lemma LastIndexOfIs(s: string, p: string, i: int)
    requires LastAt(s, p, i)
    ensures LastIndexOf(s, p) == i
  {
    assert Contains(s, p) by { assert OccursAt(s, p, i); }
  }

  /** The last occurrence of `p` starting at or before `k`, or -1. */
  function LastIndexOfUpTo(s: string, p: string, k: int): (r: int)
    ensures r == -1 || (r <= k && OccursAt(s, p, r))
    ensures forall j :: r < j <= k ==> !OccursAt(s, p, j)
    decreases if k < 0 then 0 else k + 1
  {
    if k < 0 then -1
    else if OccursAt(s, p, k) then k
    else LastIndexOfUpTo(s, p, k - 1)
  }

  /** `s.lastIndexOf(p)`. */
  function LastIndexOf(s: string, p: string): (r: int)
    ensures r != -1 ==> LastAt(s, p, r)
    ensures r == -1 <==> !Contains(s, p)
  {
    LastIndexOfUpTo(s, p, |s| - |p|)
  }

  /** Where a (possibly negative) `slice` argument lands in a string of length `len`. */
  function SliceIndex(len: nat, x: int): (r: nat)
    ensures r <= len
    ensures 0 <= x <= len ==> r == x
  {
    if x < 0 then (if len + x < 0 then 0 else len + x) else if x > len then len else x
  }

  /** `s.slice(start, end)`. */
  function Slice(s: string, start: int, end: int): (r: string)
    ensures 0 <= start <= end <= |s| ==> r == s[start..end]
    ensures |r| <= |s|
  {
    var from, to := SliceIndex(|s|, start), SliceIndex(|s|, end);
    if from >= to then "" else s[from..to]
  }

  /** `s.replace(new RegExp(p, 'g'), r)` for a pattern `p` without regular-expression
      syntax and a replacement `r` without `$` sequences: every occurrence of `p`,
      scanning left to right without overlap, is replaced by `r`. */
  function ReplaceAll(s: string, p: string, r: string): string
    requires |p| > 0
    decreases |s|
  {
    if |s| < |p| then s
    else if s[..|p|] == p then r + ReplaceAll(s[|p|..], p, r)
    else [s[0]] + ReplaceAll(s[1..], p, r)
  }

  /** Text without an occurrence of the pattern comes back unchanged. */
  lemma {:induction false} ReplaceAllAbsent(s: string, p: string, r: string)
    requires |p| > 0
    requires !Contains(s, p)
    ensures ReplaceAll(s, p, r) == s
    decreases |s|
  {
    if |s| >= |p| {
      assert s[..|p|] != p by { assert !OccursAt(s, p, 0); }
      forall k ensures !OccursAt(s[1..], p, k) {
        if OccursAt(s[1..], p, k) {
          assert s[1..][k..k + |p|] == s[k + 1..k + 1 + |p|];
          assert OccursAt(s, p, k + 1);
        }
      }
      ReplaceAllAbsent(s[1..], p, r);
      assert s == [s[0]] + s[1..];
    }
  }

  /** Replacing a pattern by itself changes nothing. */
  lemma {:induction false} ReplaceAllSelf(s: string, p: string)
    requires |p| > 0
    ensures ReplaceAll(s, p, p) == s
    decreases |s|
  {
    if |s| >= |p| {
      if s[..|p|] == p {
        ReplaceAllSelf(s[|p|..], p);
        assert s == s[..|p|] + s[|p|..];
      } else {
        ReplaceAllSelf(s[1..], p);
        assert s == [s[0]] + s[1..];
      }
    }
  }

  /** The leftmost occurrence is replaced by `r` verbatim, and the text before it is
      kept: `ReplaceAll(a + p + b) == a + r + ReplaceAll(b)` when `p` does not occur
      earlier. */
  lemma {:induction false} ReplaceAllFirst(a: string, p: string, b: string, r: string)
    requires |p| > 0
    requires forall k :: 0 <= k < |a| ==> !OccursAt(a + p + b, p, k)
    ensures ReplaceAll(a + p + b, p, r) == a + r + ReplaceAll(b, p, r)
    decreases |a|
  {
    var s := a + p + b;
    if |a| == 0 {
      assert s == p + b;
      assert s[..|p|] == p && s[|p|..] == b;
    } else {
      var t := a[1..] + p + b;
      assert s[..|p|] != p by { assert !OccursAt(s, p, 0); }
      assert s[1..] == t;
      assert ReplaceAll(s, p, r) == [s[0]] + ReplaceAll(t, p, r);
      forall k | 0 <= k < |a[1..]| ensures !OccursAt(t, p, k) {
        ShiftOccurrence(s, p, k);
      }
      ReplaceAllFirst(a[1..], p, b, r);
      assert ReplaceAll(t, p, r) == a[1..] + r + ReplaceAll(b, p, r);
      assert a == [a[0]] + a[1..];
      assert [s[0]] + (a[1..] + r + ReplaceAll(b, p, r)) == a + r + ReplaceAll(b, p, r);
    }
  }

  /** An occurrence in `s[1..]` is an occurrence in `s`, one position later. */
  lemma ShiftOccurrence(s: string, p: string, k: nat)
    requires |s| > 0
    ensures OccursAt(s[1..], p, k) <==> OccursAt(s, p, k + 1)
  {
    if k + |p| <= |s[1..]| {
      assert s[1..][k..k + |p|] == s[k + 1..k + 1 + |p|];
    }
  }

  /** For a one-character pattern, replacement works character by character and so
      distributes over concatenation. */
  lemma {:induction false} ReplaceCharConcat(a: string, b: string, c: char, r: string)
    ensures ReplaceAll(a + b, [c], r) == ReplaceAll(a, [c], r) + ReplaceAll(b, [c], r)
    decreases |a|
  {
    if |a| > 0 {
      assert (a + b)[1..] == a[1..] + b;
      assert (a + b)[..1] == a[..1];
      ReplaceCharConcat(a[1..], b, c, r);
      if a[..1] == [c] {
        assert (a + b)[|[c]|..] == a[1..] + b;
      }
    } else {
      assert a + b == b;
    }
  }

  /** `Number.isInteger` for a finite number. */
  predicate IsInteger(x: real) {
    x.Floor as real == x
  }

  /** The decimal digits of a non-negative integer, as `String(n)` prints it. */
  function Decimal(n: nat): (r: string)
    ensures |r| > 0
    ensures forall i :: 0 <= i < |r| ==> '0' <= r[i] <= '9'
    decreases n
  {
    if n < 10 then [DigitChar(n)] else Decimal(n / 10) + [DigitChar(n % 10)]
  }

  /** The lower-case hexadecimal digits of a non-negative integer, as
      `n.toString(16)` prints it: no padding, no prefix. */
  function Hex(n: nat): (r: string)
    ensures |r| > 0
    ensures forall i :: 0 <= i < |r| ==> IsLowerHexDigit(r[i])
    decreases n
  {
    if n < 16 then [DigitChar(n)] else Hex(n / 16) + [DigitChar(n % 16)]
  }

  /** `k.toString(16)` for an integer `k`: a minus sign, then the digits of `|k|`. */
  function IntHex(k: int): (r: string)
    ensures |r| > 0
    ensures k >= 0 ==> r == Hex(k)
    ensures k < 0 ==> r[0] == '-' && r[1..] == Hex(-k)
  {
    if k >= 0 then Hex(k) else "-" + Hex(-k)
  }

  predicate IsLowerHexDigit(c: char) {
    '0' <= c <= '9' || 'a' <= c <= 'f'
  }

  function DigitChar(d: nat): (c: char)
    requires d < 16
    ensures IsLowerHexDigit(c)
    ensures DigitValue(c) == d
  {
    if d < 10 then ('0' as int + d) as char else ('a' as int + d - 10) as char
  }

  function DigitValue(c: char): nat {
    if '0' <= c <= '9' then c as int - '0' as int
    else if 'a' <= c <= 'f' then c as int - 'a' as int + 10
    else if 'A' <= c <= 'F' then c as int - 'A' as int + 10
    else 0
  }

  /** The value of a string of digits in base `b`, most significant first. */
  function DigitsValue(s: string, b: nat): nat
    decreases |s|
  {
    if |s| == 0 then 0 else DigitsValue(s[..|s| - 1], b) * b + DigitValue(s[|s| - 1])
  }

  /** Printing in base 10 loses nothing: the digits read back to the number. */
  lemma {:induction false} DecimalValue(n: nat)
    ensures DigitsValue(Decimal(n), 10) == n
    decreases n
  {
    if n >= 10 {
      DecimalValue(n / 10);
      var r := Decimal(n);
      assert r[..|r| - 1] == Decimal(n / 10);
    }
  }

  /** Printing in base 16 loses nothing: the digits read back to the number. */
  lemma {:induction false} HexValue(n: nat)
    ensures DigitsValue(Hex(n), 16) == n
    decreases n
  {
    if n >= 16 {
      HexValue(n / 16);
      var r := Hex(n);
      assert r[..|r| - 1] == Hex(n / 16);
    }
  }

  /** Distinct numbers print differently, so generated names such as `local_<n>`
      never collide. */
  lemma DecimalInjective(m: nat, n: nat)
    requires Decimal(m) == Decimal(n)
    ensures m == n
  {
    DecimalValue(m);
    DecimalValue(n);
  }

  lemma HexInjective(m: nat, n: nat)
    requires Hex(m) == Hex(n)
    ensures m == n
  {
    HexValue(m);
    HexValue(n);
  }
}
