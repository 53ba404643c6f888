/**
 * Overlap detection between adjacent chunks: the longest suffix of the earlier
 * chunk that is also a prefix of the later one.
 *
 * `Overlap` is the reference definition, searching candidate lengths from the
 * shorter string's length downwards. The two methods are the two loops of the
 * annotator, which search from the current chunk's length downwards and compare
 * Python slices (which clamp); each is proved to return `Overlap`.
 */
module OverlapDetection {
  import opened PySlice

  ghost predicate IsPrefix(p: string, s: string)
  {
    |p| <= |s| && s[..|p|] == p
  }

  ghost predicate IsSuffix(p: string, s: string)
  {
    |p| <= |s| && s[|s| - |p|..] == p
  }

  /** The last `k` characters of `a` are the first `k` characters of `b`. */
  predicate SharesBoundary(a: string, b: string, k: nat)
  {
    k <= |a| && k <= |b| && a[|a| - k..] == b[..k]
  }

  /** The largest `r <= k` at which `a` and `b` share a boundary (0 if none larger does). */
  function LongestFrom(a: string, b: string, k: nat): (r: nat)
    requires k <= |a| && k <= |b|
    ensures r <= k && SharesBoundary(a, b, r)
    ensures forall j :: r < j <= k ==> !SharesBoundary(a, b, j)
    decreases k
  {
    if k == 0 then 0
    else if a[|a| - k..] == b[..k] then k
    else LongestFrom(a, b, k - 1)
  }

  /** Length of the longest suffix of `a` that is a prefix of `b`. */
  function OverlapLength(a: string, b: string): (r: nat)
    ensures SharesBoundary(a, b, r)
    ensures forall j :: r < j ==> !SharesBoundary(a, b, j)
  {
    LongestFrom(a, b, Min(|a|, |b|))
  }

  /**
   * The longest string that is both a suffix of `a` and a prefix of `b`: it is
   * one, and no longer suffix of `a` is a prefix of `b`.
   */
  function Overlap(a: string, b: string): (o: string)
    ensures IsSuffix(o, a) && IsPrefix(o, b)
    ensures forall k :: |o| < k ==> !SharesBoundary(a, b, k)
  {
    b[..OverlapLength(a, b)]
  }

  /** Every string that is a suffix of `a` and a prefix of `b` is at most as long as the overlap. */
  lemma OverlapIsLongest(a: string, b: string, t: string)
    requires IsSuffix(t, a) && IsPrefix(t, b)
    ensures |t| <= |Overlap(a, b)|
  {
    assert SharesBoundary(a, b, |t|);
  }

  /** A common suffix/prefix is the overlap exactly when no longer one exists. */
  lemma OverlapUnique(a: string, b: string, t: string)
    requires IsSuffix(t, a) && IsPrefix(t, b)
    ensures t == Overlap(a, b) <==> forall j :: |t| < j ==> !SharesBoundary(a, b, j)
  {
    var o := Overlap(a, b);
    OverlapIsLongest(a, b, t);
    assert SharesBoundary(a, b, |o|);
  }

  /** The overlap is empty exactly when no non-empty suffix of `a` is a prefix of `b`. */
  lemma OverlapEmpty(a: string, b: string)
    ensures Overlap(a, b) == "" <==> forall k :: 0 < k ==> !SharesBoundary(a, b, k)
  {
    OverlapUnique(a, b, "");
  }

  /**
   * The annotator compares `a[-k:]` with `b[:k]`. For a `k >= 1` that fits in one
   * of the two strings the comparison succeeds exactly when the strings share a
   * boundary of length `k`: where a slice is clamped it is shorter than `k` and
   * cannot equal the other one.
   */
  lemma SliceComparison(a: string, b: string, k: nat)
    requires 1 <= k && (k <= |a| || k <= |b|)
    ensures Drop(a, -(k as int)) == Take(b, k) <==> SharesBoundary(a, b, k)
  {
    DropBack(a, k);
    TakeFront(b, k);
  }

  /**
   * What a loop that searches `k` from `bound` (the length of one of the two
   * strings) down to 1 and stops at the first length at which the strings share
   * a boundary has found: that boundary is the overlap, and if the loop ran out
   * the overlap is empty.
   */
  lemma FirstMatchIsOverlap(a: string, b: string, k: nat, bound: nat)
    requires bound == |a| || bound == |b|
    requires k <= bound
    requires forall j :: k < j <= bound ==> !SharesBoundary(a, b, j)
    requires k == 0 || SharesBoundary(a, b, k)
    ensures k == 0 ==> Overlap(a, b) == ""
    ensures k > 0 ==> Overlap(a, b) == b[..k] == a[|a| - k..]
  {
    if k == 0 {
      OverlapUnique(a, b, "");
    } else {
      OverlapUnique(a, b, b[..k]);
    }
  }

  /**
   * Overlap of the current chunk with the previous one: candidate lengths from
   * `len(chunk)` down to 1, comparing `prevChunk[-k:]` with `chunk[:k]`, keeping
   * the first match.
   */
  method OverlapWithPrevious(prevChunk: string, chunk: string) returns (overlapPrev: string)
    ensures overlapPrev == Overlap(prevChunk, chunk)
  {
    overlapPrev := "";
    var k := |chunk|;
    while k > 0
      invariant 0 <= k <= |chunk|
      invariant overlapPrev == ""
      invariant forall j :: k < j <= |chunk| ==> !SharesBoundary(prevChunk, chunk, j)
    {
      var suffix := Drop(prevChunk, -k);
      var prefix := Take(chunk, k);
      SliceComparison(prevChunk, chunk, k);
      if suffix == prefix {
        overlapPrev := prefix;
        break;
      }
      assert !SharesBoundary(prevChunk, chunk, k);
      k := k - 1;
    }
    FirstMatchIsOverlap(prevChunk, chunk, k, |chunk|);
    if k > 0 {
      TakeFront(chunk, k);
    }
  }

  /**
   * Overlap of the current chunk with the next one: candidate lengths from
   * `len(chunk)` down to 1, comparing `chunk[-k:]` with `nextChunk[:k]`, keeping
   * the first match.
   */
  method OverlapWithNext(chunk: string, nextChunk: string) returns (overlapNext: string)
    ensures overlapNext == Overlap(chunk, nextChunk)
  {
    overlapNext := "";
    var k := |chunk|;
    while k > 0
      invariant 0 <= k <= |chunk|
      invariant overlapNext == ""
      invariant forall j :: k < j <= |chunk| ==> !SharesBoundary(chunk, nextChunk, j)
    {
      var suffix := Drop(chunk, -k);
      var prefix := Take(nextChunk, k);
      SliceComparison(chunk, nextChunk, k);
      if suffix == prefix {
        overlapNext := suffix;
        break;
      }
      assert !SharesBoundary(chunk, nextChunk, k);
      k := k - 1;
    }
    FirstMatchIsOverlap(chunk, nextChunk, k, |chunk|);
    if k > 0 {
      DropBack(chunk, k);
    }
  }
}
