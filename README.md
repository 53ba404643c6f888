# Chunk overlap annotator

A model of the text-splitter playground's per-chunk overlap annotator. A text
splitter produces an ordered list of chunks. For each chunk the annotator finds
two overlaps:

- its overlap with the previous chunk: the longest suffix of the previous chunk
  that is also a prefix of this one;
- its overlap with the next chunk: the longest suffix of this chunk that is
  also a prefix of the next one.

It then splits the chunk into highlighted and plain pieces for display. Before
that, it reports the longest and shortest chunk length and the average length.

The model has five modules:

- `PySlice` (`slicing.dfy`) gives Python's slice semantics. Negative bounds count
  from the end, and both bounds are clamped. Since `-0 == 0`, `s[-0:]` is
  `s[0:]`, the whole string.
- `OverlapDetection` (`overlap.dfy`) defines `Overlap(a, b)`, the reference
  definition of the longest suffix of `a` that is a prefix of `b`. It also holds
  the two descending search loops, written as methods, each proved to return
  `Overlap`.
- `Segmentation` (`segmentation.dfy`) builds the segments. The output is a
  sequence of `Segment(text, highlighted)` values rather than HTML.
  `Display(chunk, overlapPrev, overlapNext)` follows the source's three
  `if`s. `Span` is the reference definition of the overlap span: previous
  overlap, interior, next overlap.
- `ChunkAnnotator` (`annotator.dfy`) is the per-chunk pass over the whole list.
- `ChunkStats` (`stats.dfy`) computes the length statistics.

The chunk list is an arbitrary `seq<string>`, standing in for the splitter's output.

When the two overlaps together are longer than the chunk, the code
(app.py:119-133) shows `chunk[:start_len]` highlighted, then `chunk[start_len:]`
plain. It drops the next-chunk highlight and does not fall back to a whole-chunk
plain view. `Segmentation.DisplayIsSpan` and `Segmentation.DegenerateExample`
state that behaviour.

The two search loops start at `len(chunk)`, not at the shorter length of the two
strings. They compare Python slices, and a slice can be clamped. A clamped slice
is shorter than `k`, so it never matches (`OverlapDetection.SliceComparison`).
So both loops return the same overlap as the search bounded by the minimum.

## Model

| member | source | states |
|---|---|---|
| `OverlapDetection.LongestFrom` | app.py:76-81 | a descending search from `k` returns the largest length `<= k` at which the suffix of `a` equals the prefix of `b`, and no larger length up to `k` matches |
| `OverlapDetection.Overlap` | app.py:76-92 | the result is a suffix of `a` and a prefix of `b`, and at no greater length does a suffix of `a` equal a prefix of `b` |
| `OverlapDetection.OverlapIsLongest` | app.py:76-92 | every string that is a suffix of `a` and a prefix of `b` is at most as long as the overlap |
| `OverlapDetection.OverlapUnique` | app.py:76-92 | a common suffix/prefix is the overlap exactly when no longer length matches |
| `OverlapDetection.OverlapEmpty` | app.py:69-92 | the overlap is empty exactly when no non-empty suffix of `a` is a prefix of `b` |
| `OverlapDetection.SliceComparison` | app.py:77-79 | comparing `a[-k:]` with `b[:k]` succeeds exactly when the two strings share a boundary of length `k`, including when one slice is clamped |
| `OverlapDetection.FirstMatchIsOverlap` | app.py:87-92 | the first match of a descending search from the length of either string is the overlap, and no match at all means the overlap is empty |
| `OverlapDetection.OverlapWithPrevious` | app.py:73-81 | the loop over `k` from `len(chunk)` down to 1 that stops at the first `prev_chunk[-k:] == chunk[:k]` returns the longest suffix of the previous chunk that is a prefix of the chunk, or "" if there is none |
| `OverlapDetection.OverlapWithNext` | app.py:84-92 | the loop over `k` from `len(chunk)` down to 1 that stops at the first `chunk[-k:] == next_chunk[:k]` returns the longest suffix of the chunk that is a prefix of the next chunk, or "" if there is none |
| `PySlice.Slice` | app.py:129 | `s[lo:hi]` with `0 <= lo <= hi <= len(s)` is the plain subsequence, and with non-negative bounds `hi <= lo` it is empty |
| `PySlice.SliceRules` | app.py:125-133 | a bound from `-len(s)` to -1 counts from the end (acts as `len(s) + bound`), a bound below `-len(s)` acts as 0 and one above `len(s)` acts as `len(s)`, for either bound of `s[lo:hi]` |
| `PySlice.SliceExamples` | app.py:125-133 | `"abc"[-2:3] == "bc"`, `"abc"[-5:2] == "ab"`, `"abc"[1:10] == "bc"`, `"abc"[0:-1] == "ab"` and `"abc"[2:-2] == ""` |
| `PySlice.Take` | app.py:78 | `s[:hi]` is the prefix of `s` whose length is where `hi` lands; the same slice form recurs for `next_chunk[:k]`, `chunk[:non_overlap_len]` and `chunk[:start_len]` |
| `PySlice.Drop` | app.py:77 | `s[lo:]` is the suffix of `s` that starts where `lo` lands; the same slice form recurs for `chunk[-k:]`, `chunk[-end_len:]` and `chunk[start_len:]` |
| `PySlice.TakeFront` | app.py:78 | `s[:k]` for `k >= 0` is the first `min(k, len(s))` characters |
| `PySlice.DropBack` | app.py:126 | `s[-k:]` is the last `k` characters for `0 < k <= len(s)`, and the whole string for `k == 0` or `k > len(s)` |
| `PySlice.DropFront` | app.py:133 | `s[k:]` for `k >= 0` drops the first `min(k, len(s))` characters |
| `PySlice.TakeDrop` | app.py:133 | `s[:i] + s[i:] == s` for every integer `i` |
| `PySlice.TakeSliceDrop` | app.py:125-130 | `s[:i] + s[i:j] + s[j:] == s` for in-range `i <= j` |
| `Segmentation.Display` | app.py:95-133 | one to three segments, highlighted only at the ends: the first exactly when there is a previous overlap, the last exactly when there is a next overlap and the two overlaps fit side by side. `Segmentation.DisplayRoundTrip` and `Segmentation.DisplayIsSpan` state the text of each segment |
| `Segmentation.TextAppend` | app.py:130 | stripping markup from concatenated segments concatenates their texts |
| `Segmentation.DisplayRoundTrip` | app.py:95-133 | on every branch, the emitted segments with markup stripped spell out the chunk, whenever `overlap_next` is a suffix of the chunk |
| `Segmentation.DisplayIsSpan` | app.py:100-133 | for a prefix `overlap_prev` and suffix `overlap_next` of the chunk, the segments are as follows. If the two fit side by side: highlighted previous overlap (if any), plain interior, highlighted next overlap (if any, so nothing when `end_len == 0`). Otherwise: the previous overlap is non-empty and the segments are highlighted `overlap_prev` then plain `chunk[start_len:]`, with no end highlight |
| `Segmentation.DegenerateExample` | app.py:119-133 | for chunk "ab" between "xab" and "abx", both overlaps are "ab", and the output is highlighted "ab" followed by an empty plain remainder |
| `ChunkAnnotator.AnnotateChunk` | app.py:67-133 | for chunk `i`, the overlap searches run only where a neighbour exists, the view holds the longest overlaps and the display segments, and the segments spell out the chunk |
| `ChunkAnnotator.ViewsUpTo` | app.py:66 | the views of the first `n` chunks are `n` entries, entry `j` being the view of chunk `j` |
| `ChunkAnnotator.ViewRoundTrip` | app.py:94-133 | the segments of every chunk's view spell out the chunk |
| `ChunkAnnotator.AnnotateChunks` | app.py:66-133 | one view per chunk, in order, each the view of that chunk. Chunk 0 has no previous overlap and the last chunk has no next overlap. Every chunk's segments spell it out exactly |
| `ChunkAnnotator.ViewOverlapsShared` | app.py:73-92 | a view's previous overlap is a prefix of its chunk and a suffix of the previous chunk. Its next overlap is a suffix of its chunk and a prefix of the next chunk |
| `ChunkAnnotator.AdjacentViewsAgree` | app.py:73-92 | the next overlap of chunk `i` is the previous overlap of chunk `i+1` |
| `ChunkAnnotator.ViewSegments` | app.py:94-133 | every chunk's segments are its overlap span, and both overlaps fit in the chunk |
| `ChunkAnnotator.OverlapExample` | app.py:76-81 | "AAAABBBB" and "BBBBCCCC" overlap in exactly "BBBB" |
| `ChunkAnnotator.SpanExample` | app.py:100-130 | the spans of "AAAABBBB" (next overlap "BBBB") and of "BBBBCCCC" (previous overlap "BBBB") |
| `ChunkAnnotator.TwoChunkExample` | app.py:66-133 | for the chunks "AAAABBBB", "BBBBCCCC" the segments are plain "AAAA" then highlighted "BBBB", and highlighted "BBBB" then plain "CCCC" |
| `ChunkStats.Lengths` | app.py:61 | one length per chunk, in order, each the chunk's character count |
| `ChunkStats.Max` | app.py:64 | the maximum is an element of the list and no element exceeds it |
| `ChunkStats.Min` | app.py:64 | the minimum is an element of the list and no element is below it |
| `ChunkStats.Summarize` | app.py:61-64 | the statistics are present exactly when the chunk list is non-empty. The maximum and minimum are each some chunk's length, and every chunk's length lies between them. Total and count are the sum and number of lengths |
| `ChunkStats.Sum` | app.py:63 | the total of the lengths is at least each single length |
| `ChunkStats.SumBounds` | app.py:63 | a sum of values in `[lo, hi]` lies between `count * lo` and `count * hi` |
| `ChunkStats.AverageWithinRange` | app.py:63-64 | the average length lies between the minimum and the maximum: `count * min <= total <= count * max` |
| `ChunkStats.StatsExample` | app.py:61-64 | chunks of lengths 10, 20, 30 give maximum 30, minimum 10, total 60 and count 3 |

## Left out

- The Streamlit page: configuration, sidebar widgets, the Process button, the warning for empty input, the chunk count and statistics output lines, and the captions (app.py:7-17, 53-58, 64, 138-143). These are presentation only.
- The LangChain splitters and the choice between them (app.py:2, 26-31, 57). These are external library calls. The chunk list is taken as an arbitrary input.
- PDF upload, the temporary file and `PyPDFLoader` (app.py:33-49). These are file I/O and an external library.
- The floating-point average and its two-decimal formatting (app.py:63-64). Only the integer total and count are modelled, and `ChunkStats.AverageWithinRange` bounds their ratio.
- Theme colours and the per-chunk colour choice (app.py:19-24, 67). These are cosmetic.
- The HTML span markup and the unescaped embedding of chunk text in HTML (app.py:103, 125-126, 135). Markup is reduced to the `highlighted` flag of a segment.
- Token counts, HTML escaping and search-term highlighting do not occur in app.py and are not modelled.
- Python strings are sequences of code points and can hold lone surrogates, which a Dafny `char` cannot. Chunks are modelled as `seq<char>`, so such strings are outside the model.
