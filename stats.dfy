/**
 * Length statistics over the chunk list: the longest and shortest chunk
 * lengths, and the total length and chunk count from which the average is
 * taken. Nothing is reported for an empty list.
 */
module ChunkStats {

  datatype Option<T> = None | Some(value: T)

  datatype LengthStats = LengthStats(maxLen: nat, minLen: nat, totalLen: nat, count: nat)

  /** The character length of every chunk, in order. */
  function Lengths(chunks: seq<string>): (lengths: seq<nat>)
    ensures |lengths| == |chunks|
    ensures forall i :: 0 <= i < |chunks| ==> lengths[i] == |chunks[i]|
  {
    seq(|chunks|, i requires 0 <= i < |chunks| => |chunks[i]|)
  }

  /** The total of a list, which is at least each of its elements. */
  function Sum(xs: seq<nat>): (total: nat)
    ensures forall i :: 0 <= i < |xs| ==> xs[i] <= total
  {
    if xs == [] then 0
    else
      assert forall i :: 1 <= i < |xs| ==> xs[i] == xs[1..][i - 1];
      xs[0] + Sum(xs[1..])
  }

  /** The largest element of a non-empty list. */
  function Max(xs: seq<nat>): (m: nat)
    requires xs != []
    ensures m in xs
    ensures forall x :: x in xs ==> x <= m
  {
    if |xs| == 1 then xs[0]
    else
      var rest := Max(xs[1..]);
      assert forall x :: x in xs ==> x == xs[0] || x in xs[1..];
      if xs[0] >= rest then xs[0] else rest
  }

  /** The smallest element of a non-empty list. */
  function Min(xs: seq<nat>): (m: nat)
    requires xs != []
    ensures m in xs
    ensures forall x :: x in xs ==> m <= x
  {
    if |xs| == 1 then xs[0]
    else
      var rest := Min(xs[1..]);
      assert forall x :: x in xs ==> x == xs[0] || x in xs[1..];
      if xs[0] <= rest then xs[0] else rest
  }

  /**
   * The statistics line: present exactly when there is at least one chunk; its
   * maximum and minimum are lengths of actual chunks and bound every chunk's
   * length; the total and count are those the average is computed from.
   */
  function Summarize(chunks: seq<string>): (r: Option<LengthStats>)
    ensures r.None? <==> chunks == []
    ensures r.Some? ==>
      && r.value.count == |chunks|
      && r.value.totalLen == Sum(Lengths(chunks))
      && (exists i :: 0 <= i < |chunks| && |chunks[i]| == r.value.maxLen)
      && (exists i :: 0 <= i < |chunks| && |chunks[i]| == r.value.minLen)
      && (forall i :: 0 <= i < |chunks| ==> r.value.minLen <= |chunks[i]| <= r.value.maxLen)
  {
    var lengths := Lengths(chunks);
    if lengths == [] then None
    else
      var hi, lo := Max(lengths), Min(lengths);
      assert forall i :: 0 <= i < |chunks| ==> lengths[i] in lengths;
      Some(LengthStats(hi, lo, Sum(lengths), |lengths|))
  }

  /** A sum of values in `[lo, hi]` lies between `count * lo` and `count * hi`. */
  lemma {:induction false} SumBounds(xs: seq<nat>, lo: nat, hi: nat)
    requires forall x :: x in xs ==> lo <= x <= hi
    ensures |xs| * lo <= Sum(xs) <= |xs| * hi
  {
    if xs != [] {
      var rest := xs[1..];
      assert xs[0] in xs;
      forall x | x in rest
        ensures lo <= x <= hi
      {
        assert x in xs;
      }
      SumBounds(rest, lo, hi);
      MulSucc(|rest|, lo);
      MulSucc(|rest|, hi);
    }
  }

  lemma MulSucc(n: nat, c: nat)
    ensures (n + 1) * c == n * c + c
  {
  }

  /**
   * The average length `totalLen / count` lies between the minimum and the
   * maximum: `count * minLen <= totalLen <= count * maxLen`.
   */
  lemma AverageWithinRange(chunks: seq<string>)
    requires chunks != []
    ensures var st := Summarize(chunks).value;
            st.count * st.minLen <= st.totalLen <= st.count * st.maxLen
  {
    var st := Summarize(chunks).value;
    var lengths := Lengths(chunks);
    forall x | x in lengths
      ensures st.minLen <= x <= st.maxLen
    {
      var i :| 0 <= i < |lengths| && lengths[i] == x;
    }
    SumBounds(lengths, st.minLen, st.maxLen);
  }

  /** Chunks of lengths 10, 20 and 30 give maximum 30, minimum 10 and total 60 over 3. */
  lemma StatsExample(chunks: seq<string>)
    requires |chunks| == 3 && |chunks[0]| == 10 && |chunks[1]| == 20 && |chunks[2]| == 30
    ensures Summarize(chunks) == Some(LengthStats(30, 10, 60, 3))
  {
    var lengths := Lengths(chunks);
    assert lengths == [10, 20, 30];
    assert lengths[1..] == [20, 30] && lengths[1..][1..] == [30];
    assert Max([30]) == 30 && Min([30]) == 30 && Sum([30]) == 30;
    assert Max([20, 30]) == 30 && Min([20, 30]) == 20 && Sum([20, 30]) == 50;
    assert Max(lengths) == 30 && Min(lengths) == 10 && Sum(lengths) == 60;
  }
}
