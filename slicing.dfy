/**
 * Python string slicing, as the annotator uses it: `s[lo:hi]`, `s[lo:]` and `s[:hi]`.
 * A negative bound counts from the end of the string, and both bounds are then
 * clamped to `[0, len(s)]`, so a slice never fails. One consequence matters to the
 * annotator: since `-0 == 0`, `s[-0:]` is `s[0:]`, the whole string, not the empty
 * string.
 */
module PySlice {

  function Min(x: int, y: int): (m: int) { if x <= y then x else y }

  /** Where a slice bound `i` lands in a string of length `n`. */
  function Bound(i: int, n: nat): (r: nat)
    ensures r <= n
  {
    if i < 0 then (if n + i < 0 then 0 else n + i)
    else if i > n then n
    else i
  }

  /**
   * `s[lo:hi]`: with both bounds in range it is the plain subsequence, and with
   * non-negative bounds crossed it is empty. `SliceRules` gives the negative and the
   * out-of-range bounds.
   */
  function Slice(s: string, lo: int, hi: int): (r: string)
    ensures |r| <= |s|
    ensures 0 <= lo <= hi <= |s| ==> r == s[lo..hi]
    ensures 0 <= hi <= lo ==> r == ""
  {
    var a, b := Bound(lo, |s|), Bound(hi, |s|);
    if a < b then s[a..b] else ""
  }

  /**
   * Python's rules for the bounds of a slice: a negative bound from `-len(s)` up
   * counts from the end, a bound below `-len(s)` acts as 0 and a bound above
   * `len(s)` acts as `len(s)`. Each rule moves one bound into `[0, len(s)]`, where
   * the contract of `Slice` applies, so together they fix every slice.
   */
  lemma SliceRules(s: string, lo: int, hi: int)
    ensures -|s| <= lo < 0 ==> Slice(s, lo, hi) == Slice(s, |s| + lo, hi)
    ensures lo < -|s| ==> Slice(s, lo, hi) == Slice(s, 0, hi)
    ensures |s| < lo ==> Slice(s, lo, hi) == Slice(s, |s|, hi)
    ensures -|s| <= hi < 0 ==> Slice(s, lo, hi) == Slice(s, lo, |s| + hi)
    ensures hi < -|s| ==> Slice(s, lo, hi) == Slice(s, lo, 0)
    ensures |s| < hi ==> Slice(s, lo, hi) == Slice(s, lo, |s|)
  {
  }

  /** A few slices of "abc" with negative, out-of-range and crossed bounds. */
  lemma SliceExamples()
    ensures Slice("abc", -2, 3) == "bc"
    ensures Slice("abc", -5, 2) == "ab"
    ensures Slice("abc", 1, 10) == "bc"
    ensures Slice("abc", 0, -1) == "ab"
    ensures Slice("abc", 2, -2) == ""
  {
    SliceRules("abc", -2, 3);
    SliceRules("abc", -5, 2);
    SliceRules("abc", 1, 10);
    SliceRules("abc", 0, -1);
    SliceRules("abc", 2, -2);
  }

  /** `s[lo:]`: the suffix of `s` after where `lo` lands. */
  function Drop(s: string, lo: int): (r: string)
    ensures |r| == |s| - Bound(lo, |s|)
    ensures forall k :: 0 <= k < |r| ==> r[k] == s[Bound(lo, |s|) + k]
  {
    Slice(s, lo, |s|)
  }

  /** `s[:hi]`: the prefix of `s` up to where `hi` lands. */
  function Take(s: string, hi: int): (r: string)
    ensures |r| == Bound(hi, |s|)
    ensures forall k :: 0 <= k < |r| ==> r[k] == s[k]
  {
    Slice(s, 0, hi)
  }

  /** `s[:k]` for `k >= 0` is the first `k` characters, or all of `s` when it is shorter. */
  lemma TakeFront(s: string, k: nat)
    ensures Take(s, k) == s[..Min(k, |s|)]
  {
  }

  /** `s[k:]` for `k >= 0` drops the first `k` characters, or all of `s` when it is shorter. */
  lemma DropFront(s: string, k: nat)
    ensures Drop(s, k) == s[Min(k, |s|)..]
  {
  }

  /**
   * `s[-k:]` for `k >= 0` is the last `k` characters when `0 < k <= len(s)`; for
   * `k == 0` and for `k > len(s)` it is the whole of `s`.
   */
  lemma DropBack(s: string, k: nat)
    ensures 0 < k <= |s| ==> Drop(s, -(k as int)) == s[|s| - k..]
    ensures k == 0 || k > |s| ==> Drop(s, -(k as int)) == s
  {
  }

  /** `s[:i] + s[i:] == s` for every integer `i`. */
  lemma TakeDrop(s: string, i: int)
    ensures Take(s, i) + Drop(s, i) == s
  {
    var b := Bound(i, |s|);
    if 0 < b < |s| {
      assert s[..b] + s[b..] == s;
    }
  }

  /** With in-range bounds `0 <= i <= j <= len(s)`, `s[:i] + s[i:j] + s[j:] == s`. */
  lemma TakeSliceDrop(s: string, i: nat, j: nat)
    requires i <= j <= |s|
    ensures Take(s, i) + Slice(s, i, j) + Drop(s, j) == s
  {
    assert Take(s, i) == s[..i];
    assert Slice(s, i, j) == s[i..j];
    assert Drop(s, j) == s[j..];
    assert s[..i] + s[i..j] + s[j..] == s;
  }
}
