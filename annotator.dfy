/**
 * The per-chunk pass: for every chunk in order, its overlap with the previous
 * chunk (none for the first), its overlap with the next chunk (none for the
 * last), and the segments to display.
 */
module ChunkAnnotator {
  import opened OverlapDetection
  import opened Segmentation

  datatype ChunkView = ChunkView(overlapPrev: string, overlapNext: string, segments: seq<Segment>)

  /** The overlap of chunk `i` with its predecessor, or "" for the first chunk. */
  function PrevOverlapAt(chunks: seq<string>, i: nat): (o: string)
    requires i < |chunks|
  {
    if i > 0 then Overlap(chunks[i - 1], chunks[i]) else ""
  }

  /** The overlap of chunk `i` with its successor, or "" for the last chunk. */
  function NextOverlapAt(chunks: seq<string>, i: nat): (o: string)
    requires i < |chunks|
  {
    if i < |chunks| - 1 then Overlap(chunks[i], chunks[i + 1]) else ""
  }

  /** The view of chunk `i` as the annotator builds it. */
  function ViewAt(chunks: seq<string>, i: nat): (view: ChunkView)
    requires i < |chunks|
  {
    var p, n := PrevOverlapAt(chunks, i), NextOverlapAt(chunks, i);
    ChunkView(p, n, Display(chunks[i], p, n))
  }

  /**
   * The view of chunk `i`: the overlap searches run only where a neighbour
   * exists, and the segments spell out the chunk exactly.
   */
  method AnnotateChunk(chunks: seq<string>, i: nat) returns (view: ChunkView)
    requires i < |chunks|
    ensures view == ViewAt(chunks, i)
    ensures Text(view.segments) == chunks[i]
  {
    var chunk := chunks[i];
    var overlapPrev := "";
    var overlapNext := "";
    if i > 0 {
      overlapPrev := OverlapWithPrevious(chunks[i - 1], chunk);
    }
    if i < |chunks| - 1 {
      overlapNext := OverlapWithNext(chunk, chunks[i + 1]);
    }
    var segments := Display(chunk, overlapPrev, overlapNext);
    DisplayRoundTrip(chunk, overlapPrev, overlapNext);
    view := ChunkView(overlapPrev, overlapNext, segments);
  }

  /** The views of the first `n` chunks, in order: entry `j` is the view of chunk `j`. */
  function ViewsUpTo(chunks: seq<string>, n: nat): (views: seq<ChunkView>)
    requires n <= |chunks|
    ensures |views| == n
    ensures forall j :: 0 <= j < n ==> views[j] == ViewAt(chunks, j)
  {
    if n == 0 then []
    else
      var prefix := ViewsUpTo(chunks, n - 1);
      var v := ViewAt(chunks, n - 1);
      assert forall j :: 0 <= j < n ==> (prefix + [v])[j] == if j < n - 1 then prefix[j] else v;
      prefix + [v]
  }

  /**
   * One view per chunk, in order. Each view's overlaps are the longest
   * suffix/prefix matches with the neighbouring chunks (empty at the two ends of
   * the list), and its segments spell out the chunk exactly.
   */
  method AnnotateChunks(chunks: seq<string>) returns (views: seq<ChunkView>)
    ensures |views| == |chunks|
    ensures forall i :: 0 <= i < |chunks| ==> views[i] == ViewAt(chunks, i)
    ensures forall i :: 0 <= i < |chunks| ==> Text(views[i].segments) == chunks[i]
    ensures |chunks| > 0 ==> views[0].overlapPrev == "" && views[|chunks| - 1].overlapNext == ""
  {
    views := [];
    var i := 0;
    while i < |chunks|
      invariant i <= |chunks|
      invariant views == ViewsUpTo(chunks, i)
    {
      var view := AnnotateChunk(chunks, i);
      assert ViewsUpTo(chunks, i + 1) == views + [view];
      views := views + [view];
      i := i + 1;
    }
    forall j | 0 <= j < |chunks|
      ensures Text(views[j].segments) == chunks[j]
    {
      ViewRoundTrip(chunks, j);
    }
  }

  /** The segments of every view spell out its chunk. */
  lemma ViewRoundTrip(chunks: seq<string>, i: nat)
    requires i < |chunks|
    ensures Text(ViewAt(chunks, i).segments) == chunks[i]
  {
    DisplayRoundTrip(chunks[i], PrevOverlapAt(chunks, i), NextOverlapAt(chunks, i));
  }

  /**
   * Every view's overlaps lie inside its chunk, as a prefix and a suffix, and
   * they are shared with the neighbours: the previous overlap is a suffix of the
   * previous chunk, the next overlap a prefix of the next chunk.
   */
  lemma ViewOverlapsShared(chunks: seq<string>, i: nat)
    requires i < |chunks|
    ensures IsPrefix(ViewAt(chunks, i).overlapPrev, chunks[i])
    ensures IsSuffix(ViewAt(chunks, i).overlapNext, chunks[i])
    ensures i > 0 ==> IsSuffix(ViewAt(chunks, i).overlapPrev, chunks[i - 1])
    ensures i < |chunks| - 1 ==> IsPrefix(ViewAt(chunks, i).overlapNext, chunks[i + 1])
  {
  }

  /**
   * The overlap a chunk sees with its successor is the one the successor sees
   * with its predecessor, so each shared boundary is highlighted on both sides.
   */
  lemma AdjacentViewsAgree(chunks: seq<string>, i: nat)
    requires i + 1 < |chunks|
    ensures ViewAt(chunks, i).overlapNext == ViewAt(chunks, i + 1).overlapPrev
  {
  }

  /** The segments of every chunk are its overlap span. */
  lemma ViewSegments(chunks: seq<string>, i: nat)
    requires i < |chunks|
    ensures var v := ViewAt(chunks, i);
            |v.overlapPrev| <= |chunks[i]| && |v.overlapNext| <= |chunks[i]| &&
            v.segments == Span(chunks[i], v.overlapPrev, v.overlapNext)
  {
    var p, n := PrevOverlapAt(chunks, i), NextOverlapAt(chunks, i);
    DisplayIsSpan(chunks[i], p, n);
  }

  /** The chunks "AAAABBBB" and "BBBBCCCC" share "BBBB" and nothing longer. */
  lemma OverlapExample()
    ensures Overlap("AAAABBBB", "BBBBCCCC") == "BBBB"
  {
    var a, b := "AAAABBBB", "BBBBCCCC";
    forall j | 4 < j
      ensures !SharesBoundary(a, b, j)
    {
      if j <= 8 {
        assert a[8 - j] == 'A' != b[0];
      }
    }
    OverlapUnique(a, b, "BBBB");
  }

  lemma SpanExample()
    ensures Span("AAAABBBB", "", "BBBB") == [Segment("AAAA", false), Segment("BBBB", true)]
    ensures Span("BBBBCCCC", "BBBB", "") == [Segment("BBBB", true), Segment("CCCC", false)]
  {
    assert "AAAABBBB"[0..4] == "AAAA";
    assert "BBBBCCCC"[4..8] == "CCCC";
  }

  /**
   * The scenario "AAAABBBB", "BBBBCCCC": the shared "BBBB" ends the first chunk
   * and starts the second, and each chunk's interior is its other half.
   */
  lemma TwoChunkExample()
    ensures ViewAt(["AAAABBBB", "BBBBCCCC"], 0).segments
         == [Segment("AAAA", false), Segment("BBBB", true)]
    ensures ViewAt(["AAAABBBB", "BBBBCCCC"], 1).segments
         == [Segment("BBBB", true), Segment("CCCC", false)]
  {
    var chunks := ["AAAABBBB", "BBBBCCCC"];
    OverlapExample();
    SpanExample();
    ViewSegments(chunks, 0);
    ViewSegments(chunks, 1);
  }
}
