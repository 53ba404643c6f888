/**
 * Segment construction for one chunk: the chunk's text split into highlighted
 * and plain pieces, given its overlap with the previous chunk (`overlapPrev`)
 * and with the next one (`overlapNext`). Markup is represented only by the
 * `highlighted` flag of each segment.
 */
module Segmentation {
  import opened PySlice
  import opened OverlapDetection

  datatype Segment = Segment(text: string, highlighted: bool)

  /** The text of a run of segments with the markup stripped. */
  function Text(segments: seq<Segment>): (t: string)
  {
    if segments == [] then "" else segments[0].text + Text(segments[1..])
  }

  /** A highlighted segment for `t`, or nothing when `t` is empty. */
  function HighlightIfAny(t: string): (segments: seq<Segment>)
  {
    if t == "" then [] else [Segment(t, true)]
  }

  /**
   * The segments the annotator emits for `chunk`. Starting from the whole chunk
   * as plain text, a non-empty `overlapNext` replaces it by the plain front and
   * the highlighted `overlapNext`; a non-empty `overlapPrev` then rebuilds it from
   * the chunk's own slices, with `startLen = len(overlapPrev)` and
   * `endLen = len(overlapNext)`: highlighted `chunk[:startLen]`, then either
   * plain `chunk[startLen:len(chunk)-endLen]` and highlighted `chunk[-endLen:]`
   * (the latter only when `endLen > 0`), or, when `startLen + endLen` exceeds the
   * chunk's length, plain `chunk[startLen:]` and no end highlight.
   *
   * So there are one to three segments, highlighting happens only at the two
   * ends, the first segment is highlighted exactly when there is a previous
   * overlap, and the last one exactly when there is a next overlap that is not
   * dropped by the degenerate case.
   */
  function Display(chunk: string, overlapPrev: string, overlapNext: string): (segments: seq<Segment>)
    ensures 1 <= |segments| <= 3
    ensures segments[0].highlighted <==> overlapPrev != ""
    ensures segments[|segments| - 1].highlighted <==>
              overlapNext != "" && (overlapPrev == "" || |overlapPrev| + |overlapNext| <= |chunk|)
    ensures |segments| == 3 ==> !segments[1].highlighted
  {
    var plain := [Segment(chunk, false)];
    var endMarked :=
      if overlapNext != "" then
        [Segment(Take(chunk, |chunk| - |overlapNext|), false), Segment(overlapNext, true)]
      else plain;
    if overlapPrev == "" then endMarked
    else
      var startLen, endLen := |overlapPrev|, |overlapNext|;
      var part1 := Segment(Take(chunk, startLen), true);
      var part3 := if endLen > 0 then [Segment(Drop(chunk, -endLen), true)] else [];
      if startLen + endLen <= |chunk| then
        [part1, Segment(Slice(chunk, startLen, |chunk| - endLen), false)] + part3
      else
        [part1, Segment(Drop(chunk, startLen), false)]
  }

  lemma {:induction false} TextAppend(xs: seq<Segment>, ys: seq<Segment>)
    ensures Text(xs + ys) == Text(xs) + Text(ys)
  {
    if xs != [] {
      assert (xs + ys)[1..] == xs[1..] + ys;
      TextAppend(xs[1..], ys);
    } else {
      assert xs + ys == ys;
    }
  }

  lemma TextOfTwo(x: Segment, y: Segment)
    ensures Text([x, y]) == x.text + y.text
  {
    assert [x, y][1..] == [y];
    assert [y][1..] == [];
    assert Text([y]) == y.text + Text([]);
  }

  /**
   * Stripping the markup gives back the chunk, on every branch, as long as
   * `overlapNext` is a suffix of the chunk (as the detected overlap always is).
   */
  lemma DisplayRoundTrip(chunk: string, overlapPrev: string, overlapNext: string)
    requires IsSuffix(overlapNext, chunk)
    ensures Text(Display(chunk, overlapPrev, overlapNext)) == chunk
  {
    var n, s, e := |chunk|, |overlapPrev|, |overlapNext|;
    if overlapPrev == "" {
      if overlapNext != "" {
        var front := Take(chunk, n - e);
        TakeFront(chunk, n - e);
        assert front == chunk[..n - e];
        TextOfTwo(Segment(front, false), Segment(overlapNext, true));
        assert chunk[..n - e] + chunk[n - e..] == chunk;
      } else {
        assert Text([Segment(chunk, false)]) == chunk + Text([]);
      }
    } else if s + e <= n {
      var front := [Segment(Take(chunk, s), true), Segment(Slice(chunk, s, n - e), false)];
      var back := if e > 0 then [Segment(Drop(chunk, -e), true)] else [];
      TextOfTwo(front[0], front[1]);
      TextAppend(front, back);
      TakeSliceDrop(chunk, s, n - e);
      if e > 0 {
        DropBack(chunk, e);
        assert Text(back) == Drop(chunk, -e) + Text([]);
      } else {
        assert Drop(chunk, n) == "";
      }
    } else {
      TextOfTwo(Segment(Take(chunk, s), true), Segment(Drop(chunk, s), false));
      TakeDrop(chunk, s);
    }
  }

  /**
   * The overlap span of a chunk whose previous-chunk overlap is the prefix
   * `overlapPrev` and whose next-chunk overlap is the suffix `overlapNext`, as
   * segments. Normal case (the two fit side by side): the highlighted previous
   * overlap if any, the plain interior, the highlighted next overlap if any.
   * Degenerate case (together longer than the chunk): the highlighted previous
   * overlap and the plain rest of the chunk; the next overlap is not highlighted.
   */
  function Span(chunk: string, overlapPrev: string, overlapNext: string): (segments: seq<Segment>)
    requires |overlapPrev| <= |chunk| && |overlapNext| <= |chunk|
  {
    var s, e := |overlapPrev|, |overlapNext|;
    if s + e <= |chunk| then
      HighlightIfAny(overlapPrev) + [Segment(chunk[s..|chunk| - e], false)] + HighlightIfAny(overlapNext)
    else
      [Segment(overlapPrev, true), Segment(chunk[s..], false)]
  }

  /**
   * With a prefix of the chunk as `overlapPrev` and a suffix as `overlapNext`,
   * the segments emitted are the overlap span; in particular no end highlight
   * is emitted when `overlapNext` is empty, and in the degenerate case
   * `overlapPrev` is necessarily non-empty.
   */
  lemma DisplayIsSpan(chunk: string, overlapPrev: string, overlapNext: string)
    requires IsPrefix(overlapPrev, chunk) && IsSuffix(overlapNext, chunk)
    ensures |overlapPrev| + |overlapNext| > |chunk| ==> overlapPrev != ""
    ensures Display(chunk, overlapPrev, overlapNext) == Span(chunk, overlapPrev, overlapNext)
  {
    var n, s, e := |chunk|, |overlapPrev|, |overlapNext|;
    TakeFront(chunk, s);
    if s + e <= n {
      TakeFront(chunk, n - e);
      DropBack(chunk, e);
    } else {
      DropFront(chunk, s);
    }
  }

  /**
   * A chunk "ab" whose previous chunk ends in "ab" and whose next chunk starts
   * with "ab": both overlaps are the whole chunk, and the output highlights it
   * all as the previous overlap, followed by an empty plain remainder.
   */
  lemma DegenerateExample()
    ensures Overlap("xab", "ab") == "ab" && Overlap("ab", "abx") == "ab"
    ensures Display("ab", "ab", "ab") == [Segment("ab", true), Segment("", false)]
  {
    OverlapUnique("xab", "ab", "ab");
    OverlapUnique("ab", "abx", "ab");
    DisplayIsSpan("ab", "ab", "ab");
  }
}
