/** Small helpers shared by the model: optional values, Python's slicing
    rules, ASCII upper-casing and decimal digit strings. */
module Util {

  datatype Option<+T> = None | Some(value: T)

  datatype Result<+T, +E> = Ok(value: T) | Err(error: E)

  /** Where a Python slice bound `i` lands in a sequence of length `n`:
      a negative bound counts from the end, and the result is clamped to [0, n]. */
  function ClampIndex(i: int, n: nat): (k: nat)
    ensures k <= n
    ensures 0 <= i <= n ==> k == i
    ensures i > n ==> k == n
    ensures i < 0 ==> k == if i + n < 0 then 0 else i + n
  {
    if i < 0 then (if i + n < 0 then 0 else i + n)
    else if i > n then n
    else i
  }

  /** Python's `xs[i:j]` (step 1). */
  function PySlice<T>(xs: seq<T>, i: int, j: int): (r: seq<T>)
    ensures |r| <= |xs|
    ensures |r| == if ClampIndex(i, |xs|) < ClampIndex(j, |xs|)
                   then ClampIndex(j, |xs|) - ClampIndex(i, |xs|) else 0
    ensures forall k :: 0 <= k < |r| ==> r[k] == xs[ClampIndex(i, |xs|) + k]
    ensures 0 <= i <= j <= |xs| ==> r == xs[i..j]
  {
    var lo := ClampIndex(i, |xs|);
    var hi := ClampIndex(j, |xs|);
    if lo < hi then xs[lo..hi] else []
  }

  /** Adjacent non-negative slices concatenate to the slice over their union. */
  lemma PySliceConcat<T>(xs: seq<T>, a: int, b: int, c: int)
    requires 0 <= a <= b <= c
    ensures PySlice(xs, a, b) + PySlice(xs, b, c) == PySlice(xs, a, c)
  {
    var n := |xs|;
    if c <= n {
      SliceConcat(xs, a, b, c);
    } else if b <= n {
      assert PySlice(xs, b, c) == xs[b..n];
      assert PySlice(xs, a, c) == xs[a..n];
      SliceConcat(xs, a, b, n);
    } else {
      assert PySlice(xs, b, c) == [];
    }
  }

  /** Adjacent slices concatenate to the slice over their union. */
  lemma SliceConcat<T>(xs: seq<T>, a: nat, b: nat, c: nat)
    requires a <= b <= c <= |xs|
    ensures xs[a..b] + xs[b..c] == xs[a..c]
  {
    var joined := xs[a..b] + xs[b..c];
    assert |joined| == c - a;
    forall k | 0 <= k < c - a
      ensures joined[k] == xs[a..c][k]
    {
      if k < b - a {
        assert joined[k] == xs[a + k];
      } else {
        assert joined[k] == xs[b..c][k - (b - a)];
      }
    }
  }

  /** Slices of two sequences of equal length have equal length. */
  lemma PySliceSameLength<S, T>(xs: seq<S>, ys: seq<T>, i: int, j: int)
    requires |xs| == |ys|
    ensures |PySlice(xs, i, j)| == |PySlice(ys, i, j)|
  {
  }

  /** ASCII upper-casing of one byte-sized character, as `str.upper()` does. */
  function Upper(c: char): (u: char)
    ensures 'a' <= c <= 'z' ==> 'A' <= u <= 'Z' && u as int == c as int - 32
    ensures !('a' <= c <= 'z') ==> u == c
  {
    if 'a' <= c <= 'z' then (c as int - 32) as char else c
  }

  function UpperSeq(s: seq<char>): (u: seq<char>)
    ensures |u| == |s|
    ensures forall k :: 0 <= k < |s| ==> u[k] == Upper(s[k])
  {
    seq(|s|, k requires 0 <= k < |s| => Upper(s[k]))
  }

  lemma UpperSeqConcat(a: seq<char>, b: seq<char>)
    ensures UpperSeq(a + b) == UpperSeq(a) + UpperSeq(b)
  {
  }

  predicate IsDigit(c: char)
  {
    '0' <= c <= '9'
  }

  /** The value of a string of decimal digits, as Python's `int()` reads it. */
  function DigitsValue(s: seq<char>): (v: nat)
    requires forall k :: 0 <= k < |s| ==> IsDigit(s[k])
    decreases |s|
  {
    if s == [] then 0
    else
      assert IsDigit(s[|s| - 1]);
      DigitsValue(s[..|s| - 1]) * 10 + (s[|s| - 1] as int - '0' as int)
  }

  /** The decimal string of a natural number, as Python's `str()` writes it. */
  function NatToString(n: nat): (s: seq<char>)
    ensures |s| > 0
    ensures forall k :: 0 <= k < |s| ==> IsDigit(s[k])
    decreases n
  {
    if n < 10 then [('0' as int + n) as char]
    else NatToString(n / 10) + [('0' as int + n % 10) as char]
  }

  /** Reading back what `NatToString` writes gives the number. */
  lemma {:induction false} NatToStringRoundTrip(n: nat)
    ensures DigitsValue(NatToString(n)) == n
    decreases n
  {
    if n >= 10 {
      var s := NatToString(n);
      assert s[..|s| - 1] == NatToString(n / 10);
      NatToStringRoundTrip(n / 10);
    }
  }
}
