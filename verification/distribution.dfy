/**
 The pure part of `analyze_distribution`: the statistics the source prints
 for one list of scores. The list is sorted first; the median is the element
 at index `n / 2`, the percentiles are nearest-rank with a truncated index,
 the three engagement bands are split at 40 and 70, and the histogram groups
 scores into tens and scales each bar to at most 40 characters.
 */
module Distribution {
  import opened Records
  import opened Seqs
  import opened Sorting
  import Tally

  /** Scores below this are "low". */
  const LowThreshold: int := 40
  /** Scores at or above this are "high"; those in between are "medium". */
  const HighThreshold: int := 70
  /** Width of one histogram bucket. */
  const DecileWidth: int := 10
  /** Length of the longest histogram bar. */
  const BarWidth: nat := 40
  /** Number of histogram rows shown: buckets 0, 10, ..., 100. */
  const ShownBuckets: nat := 11

  // ---------------------------------------------------------------------------
  // Percentiles, median, extremes

  /** The truncated nearest rank of percentile `p` among `n` scores, clamped to the last index (scripts/analyze-engagement.py:46-47). */
  function PercentileIndex(n: nat, p: nat): (i: nat)
    requires n > 0
    ensures i < n
    ensures i * 100 <= n * p
    ensures i == n - 1 || n * p < (i + 1) * 100
  {
    var idx := n * p / 100;
    if idx < n - 1 then idx else n - 1
  }

  /** The score at the percentile's index of the sorted list (scripts/analyze-engagement.py:45-47). */
  function Percentile(s: seq<int>, p: nat): (v: int)
    requires |s| > 0
    ensures v in s
    ensures Sorted(s) ==> s[0] <= v <= s[|s| - 1]
  {
    s[PercentileIndex(|s|, p)]
  }

  lemma PercentileIndexMonotone(n: nat, p: nat, q: nat)
    requires n > 0 && p <= q
    ensures PercentileIndex(n, p) <= PercentileIndex(n, q)
  {
    assert n * p <= n * q by {
      assert n * q - n * p == n * (q - p);
    }
  }

  /** A larger percentile of a sorted list is never a smaller value. */
  lemma PercentileMonotone(s: seq<int>, p: nat, q: nat)
    requires Sorted(s) && |s| > 0 && p <= q
    ensures Percentile(s, p) <= Percentile(s, q)
  {
    PercentileIndexMonotone(|s|, p, q);
  }

  /** The middle element of the sorted list; for an even count, the upper of the two middle ones (scripts/analyze-engagement.py:40). */
  function Median(s: seq<int>): (m: int)
    requires |s| > 0
    ensures m == Percentile(s, 50)
  {
    s[|s| / 2]
  }

  /** The reported median of 10, 20, 30, 40 is 30, not 25. */
  lemma MedianOfFourIsUpperMiddle()
    ensures Median([10, 20, 30, 40]) == 30
  {
  }

  /** The least score (scripts/analyze-engagement.py:41). */
  function MinOf(s: seq<int>): (m: int)
    requires |s| > 0
    ensures m in s
    ensures forall i :: 0 <= i < |s| ==> m <= s[i]
  {
    if |s| == 1 then s[0]
    else
      var rest := MinOf(s[1..]);
      assert forall i :: 1 <= i < |s| ==> s[i] == s[1..][i - 1];
      if s[0] <= rest then s[0] else rest
  }

  /** The greatest score (scripts/analyze-engagement.py:42). */
  function MaxOf(s: seq<int>): (m: int)
    requires |s| > 0
    ensures m in s
    ensures forall i :: 0 <= i < |s| ==> s[i] <= m
  {
    if |s| == 1 then s[0]
    else
      var rest := MaxOf(s[1..]);
      assert forall i :: 1 <= i < |s| ==> s[i] == s[1..][i - 1];
      if s[0] >= rest then s[0] else rest
  }

  /** On a sorted list the extremes are the two ends. */
  lemma SortedExtremes(s: seq<int>)
    requires Sorted(s) && |s| > 0
    ensures MinOf(s) == s[0] && MaxOf(s) == s[|s| - 1]
  {
  }

  /** The scores below `v`. */
  function Below(v: int): int -> bool {
    x => x < v
  }

  /** The scores at most `v`. */
  function AtMost(v: int): int -> bool {
    x => x <= v
  }

  /**
   `v` is what index `i` of the sorted list holds: at most `i` scores lie
   below it, and more than `i` are at most it.
   */
  ghost predicate RankedAt(v: int, i: nat, scores: seq<int>) {
    Count(scores, Below(v)) <= i < Count(scores, AtMost(v))
  }

  /** In a sorted list every element sits at the rank of its own index. */
  lemma SortedRank(s: seq<int>, i: nat)
    requires Sorted(s) && i < |s|
    ensures RankedAt(s[i], i, s)
  {
    SortedPrefixCount(s, Below(s[i]));
    SortedPrefixCount(s, AtMost(s[i]));
  }

  /** A rank determines its value: two values at the same rank of the same scores are equal. */
  lemma RankedAtUnique(v: int, w: int, i: nat, scores: seq<int>)
    requires RankedAt(v, i, scores) && RankedAt(w, i, scores)
    ensures v == w
  {
    if v < w {
      CountMonotone(scores, AtMost(v), Below(w));
    } else if w < v {
      CountMonotone(scores, AtMost(w), Below(v));
    }
  }

  // ---------------------------------------------------------------------------
  // The low / medium / high bands

  predicate IsLow(x: int) { x < LowThreshold }
  predicate IsMedium(x: int) { LowThreshold <= x < HighThreshold }
  predicate IsHigh(x: int) { x >= HighThreshold }
  predicate IsBelowHigh(x: int) { x < HighThreshold }

  datatype BandCounts = BandCounts(low: nat, medium: nat, high: nat)

  /** `low`, `medium` and `high`, each counted by its own comprehension. */
  function CountBands(s: seq<int>): (b: BandCounts)
    ensures b.low + b.medium + b.high == |s|
    ensures Sorted(s) ==>
      && (forall i :: 0 <= i < b.low ==> IsLow(s[i]))
      && (forall i :: b.low <= i < b.low + b.medium ==> IsMedium(s[i]))
      && (forall i :: b.low + b.medium <= i < |s| ==> IsHigh(s[i]))
  {
    var b := BandCounts(Count(s, IsLow), Count(s, IsMedium), Count(s, IsHigh));
    CountDisjointUnion(s, IsLow, IsMedium, IsBelowHigh);
    CountDisjointUnion(s, IsBelowHigh, IsHigh, Any);
    CountNoneOrAll(s, Any);
    if Sorted(s) then
      SortedPrefixCount(s, IsLow);
      SortedPrefixCount(s, IsBelowHigh);
      b
    else b
  }

  /** A property that, holding of a value, holds of every smaller value. */
  ghost predicate DownwardClosed(f: int -> bool) {
    forall x, y :: x <= y && f(y) ==> f(x)
  }

  /** In a sorted list, the elements with a downward-closed property form a prefix. */
  lemma {:induction false} SortedPrefixCount(s: seq<int>, f: int -> bool)
    requires Sorted(s) && DownwardClosed(f)
    ensures forall i :: 0 <= i < Count(s, f) ==> f(s[i])
    ensures forall i :: Count(s, f) <= i < |s| ==> !f(s[i])
  {
    if |s| > 0 {
      if f(s[0]) {
        SortedPrefixCount(s[1..], f);
        assert forall i :: 1 <= i < |s| ==> s[i] == s[1..][i - 1];
      } else {
        CountNoneOrAll(s, f);
        assert forall i :: 0 <= i < |s| ==> !f(s[i]) by {
          forall i | 0 <= i < |s| ensures !f(s[i]) {
            assert s[0] <= s[i];
          }
        }
      }
    }
  }

  /** The boundary values: 39 is low, 40 and 69 are medium, 70 is high. */
  lemma BandBoundaries()
    ensures CountBands([39, 40, 69, 70]) == BandCounts(1, 2, 1)
  {
  }

  // ---------------------------------------------------------------------------
  // The histogram

  /** The lower end of the ten-point bucket holding `s`, rounding down (scripts/analyze-engagement.py:84); Python's floor division agrees with Dafny's for a positive divisor. */
  function DecileKey(x: int): (k: int)
    ensures k % DecileWidth == 0
    ensures k <= x < k + DecileWidth
  {
    (x / DecileWidth) * DecileWidth
  }

  /** The scores that fall in `[lo, lo + DecileWidth)`. */
  function InDecile(lo: int): int -> bool {
    x => lo <= x < lo + DecileWidth
  }

  lemma {:induction false} DecileCount(s: seq<int>, k: int)
    requires k % DecileWidth == 0
    ensures Tally.CountKey(s, DecileKey, k) == Count(s, InDecile(k))
  {
    if |s| > 0 {
      DecileCount(s[1..], k);
      assert DecileKey(s[0]) == k <==> InDecile(k)(s[0]) by {
        DecileKeyUnique(s[0], k);
      }
    }
  }

  lemma DecileKeyUnique(x: int, k: int)
    requires k % DecileWidth == 0
    ensures DecileKey(x) == k <==> k <= x < k + DecileWidth
  {
  }

  /** No score is tallied under a key that is not a multiple of ten. */
  lemma OffDecileCount(s: seq<int>, k: int)
    requires k % DecileWidth != 0
    ensures Tally.CountKey(s, DecileKey, k) == 0
  {
    CountNoneOrAll(s, Tally.HasKey(DecileKey, k));
  }

  /** The scores tallied by their ten-point bucket, in first-seen order (scripts/analyze-engagement.py:82-85). */
  function Histogram(s: seq<int>): (h: Tally.Counter<int>)
    ensures Tally.DistinctKeys(h) && Tally.Positive(h)
    ensures Tally.Total(h) == |s|
    ensures forall k :: k % DecileWidth == 0 ==> Tally.Get(h, k) == Count(s, InDecile(k))
    ensures forall k :: k % DecileWidth != 0 ==> Tally.Get(h, k) == 0
  {
    var h := Tally.TallyBy(s, DecileKey);
    assert forall k :: k % DecileWidth == 0 ==> Tally.Get(h, k) == Count(s, InDecile(k)) by {
      forall k | k % DecileWidth == 0 ensures Tally.Get(h, k) == Count(s, InDecile(k)) {
        DecileCount(s, k);
      }
    }
    assert forall k :: k % DecileWidth != 0 ==> Tally.Get(h, k) == 0 by {
      forall k | k % DecileWidth != 0 ensures Tally.Get(h, k) == 0 {
        OffDecileCount(s, k);
      }
    }
    h
  }

  /** The largest bucket count, or 1 for an empty histogram (scripts/analyze-engagement.py:87). */
  function HistogramScale(h: Tally.Counter<int>): (m: nat)
    requires Tally.DistinctKeys(h) && Tally.Positive(h)
    ensures m > 0
    ensures forall k :: Tally.Get(h, k) <= m
    ensures |h| == 0 ==> m == 1
    ensures |h| > 0 ==> Tally.Contains(h, Tally.MaxKey(h)) && Tally.Get(h, Tally.MaxKey(h)) == m
  {
    if |h| > 0 then Tally.MaxCount(h) else 1
  }

  /** The bar for `count`: its share of `scale`, in whole characters out of 40, and no bar when the scale is not positive (scripts/analyze-engagement.py:90). */
  function BarLength(count: nat, scale: nat): (len: nat)
    ensures scale == 0 ==> len == 0
    ensures 0 < scale && count <= scale ==> len <= BarWidth && (len == BarWidth <==> count == scale)
  {
    if scale > 0 then
      var len := (BarWidth * count) / scale;
      BarLengthBounds(count, scale, len);
      len
    else 0
  }

  /** The bar is the largest whole length not exceeding `40 * count / scale`. */
  lemma BarLengthIsFloor(count: nat, scale: nat)
    requires scale > 0
    ensures BarLength(count, scale) * scale <= BarWidth * count < (BarLength(count, scale) + 1) * scale
  {
    BarLengthBounds(count, scale, BarLength(count, scale));
  }

  lemma BarLengthBounds(count: nat, scale: nat, len: nat)
    requires scale > 0 && len == (BarWidth * count) / scale
    ensures len * scale <= BarWidth * count < (len + 1) * scale
    ensures count <= scale ==> len <= BarWidth && (len == BarWidth <==> count == scale)
  {
    var a := BarWidth * count;
    assert a == scale * len + a % scale;
    assert (len + 1) * scale == len * scale + scale;
    if count <= scale {
      if len > BarWidth {
        MulMonotone(BarWidth + 1, len, scale);
        MulMonotone(count, scale, BarWidth);
      }
      if count == scale && len < BarWidth {
        MulMonotone(len + 1, BarWidth, scale);
      }
      if count < scale && len == BarWidth {
        MulMonotone(count + 1, scale, BarWidth);
      }
    }
  }

  lemma MulMonotone(x: int, y: int, z: nat)
    requires x <= y
    ensures x * z <= y * z
  {
    assert y * z - x * z == (y - x) * z;
  }

  datatype HistogramRow = HistogramRow(bucket: int, count: nat, barLen: nat)

  /** The buckets the histogram shows: 0 to 100 in steps of 10 (scripts/analyze-engagement.py:88). */
  function ShownBucketKeys(): (ks: seq<int>)
    ensures |ks| == ShownBuckets
    ensures forall i :: 0 <= i < |ks| ==> ks[i] == i * DecileWidth
  {
    [0, 10, 20, 30, 40, 50, 60, 70, 80, 90, 100]
  }

  /** One row per listed bucket, absent buckets reading 0. */
  function RowsFor(h: Tally.Counter<int>, ks: seq<int>, scale: nat): (rows: seq<HistogramRow>)
    ensures |rows| == |ks|
    ensures forall i :: 0 <= i < |ks| ==>
      rows[i].bucket == ks[i] && rows[i].count == Tally.Get(h, ks[i])
      && rows[i].barLen == BarLength(Tally.Get(h, ks[i]), scale)
  {
    if |ks| == 0 then []
    else
      var count := Tally.Get(h, ks[0]);
      [HistogramRow(ks[0], count, BarLength(count, scale))] + RowsFor(h, ks[1..], scale)
  }

  /** The rows the source prints for buckets 0 through 100. */
  function HistogramRows(h: Tally.Counter<int>): (rows: seq<HistogramRow>)
    requires Tally.DistinctKeys(h) && Tally.Positive(h)
    ensures |rows| == ShownBuckets
    ensures forall i :: 0 <= i < |rows| ==>
      rows[i].bucket == i * DecileWidth && rows[i].count == Tally.Get(h, i * DecileWidth)
    ensures forall i :: 0 <= i < |rows| ==> rows[i].barLen == BarLength(rows[i].count, HistogramScale(h))
    ensures forall i :: 0 <= i < |rows| ==> rows[i].barLen <= BarWidth
    ensures forall i :: 0 <= i < |rows| ==>
      (rows[i].barLen == BarWidth <==> rows[i].count == HistogramScale(h))
  {
    var scale := HistogramScale(h);
    seq(ShownBuckets, i requires 0 <= i < ShownBuckets =>
      var count := Tally.Get(h, i * DecileWidth);
      HistogramRow(i * DecileWidth, count, BarLength(count, scale)))
  }

  function RowsTotal(rows: seq<HistogramRow>): nat {
    if |rows| == 0 then 0 else rows[0].count + RowsTotal(rows[1..])
  }

  lemma {:induction false} RowsTotalIsSumAt(h: Tally.Counter<int>, ks: seq<int>, scale: nat)
    ensures RowsTotal(RowsFor(h, ks, scale)) == Tally.SumAt(h, ks)
  {
    if |ks| > 0 {
      RowsTotalIsSumAt(h, ks[1..], scale);
      assert RowsFor(h, ks, scale)[1..] == RowsFor(h, ks[1..], scale);
    }
  }

  /**
   The shown rows add up to the number of scores exactly when every score lies
   in 0..109; a score outside that range is tallied but never displayed.
   */
  lemma ShownRowsCoverAll(s: seq<int>)
    ensures RowsTotal(HistogramRows(Histogram(s))) == |s|
        <==> forall i :: 0 <= i < |s| ==> 0 <= s[i] < ShownBuckets * DecileWidth
  {
    var ks := ShownBucketKeys();
    assert Distinct(ks);
    forall x ensures DecileKey(x) in ks <==> 0 <= x < ShownBuckets * DecileWidth {
      ShownKey(x);
    }
    var h := Histogram(s);
    assert HistogramRows(h) == RowsFor(h, ks, HistogramScale(h));
    RowsCoverKeys(s, ks);
  }

  lemma RowsCoverKeys(s: seq<int>, ks: seq<int>)
    requires Distinct(ks)
    requires forall x :: DecileKey(x) in ks <==> 0 <= x < ShownBuckets * DecileWidth
    ensures RowsTotal(RowsFor(Histogram(s), ks, HistogramScale(Histogram(s)))) == |s|
        <==> forall i :: 0 <= i < |s| ==> 0 <= s[i] < ShownBuckets * DecileWidth
  {
    var h := Histogram(s);
    RowsTotalIsSumAt(h, ks, HistogramScale(h));
    assert h == Tally.TallyBy(s, DecileKey);
    Tally.ReadBackTotal(s, DecileKey, ks);
  }

  lemma ShownKey(x: int)
    ensures DecileKey(x) in ShownBucketKeys() <==> 0 <= x < ShownBuckets * DecileWidth
  {
    var ks := ShownBucketKeys();
    if 0 <= x < ShownBuckets * DecileWidth {
      var i := x / DecileWidth;
      assert DecileKey(x) == ks[i];
    }
  }

  // ---------------------------------------------------------------------------
  // The whole analysis

  datatype Stats = Stats(
    n: nat,
    median: int,
    minVal: int,
    maxVal: int,
    p10: int,
    p25: int,
    p50: int,
    p75: int,
    p90: int,
    p95: int,
    bands: BandCounts,
    histogram: Tally.Counter<int>,
    scale: nat,
    rows: seq<HistogramRow>
  )

  /** The statistics of a non-empty sorted list. */
  function Summarize(sorted: seq<int>): (st: Stats)
    requires Sorted(sorted) && |sorted| > 0
    ensures st.n == |sorted|
    ensures st.minVal == sorted[0] && st.maxVal == sorted[|sorted| - 1]
    ensures st.minVal <= st.p10 <= st.p25 <= st.p50 <= st.p75 <= st.p90 <= st.p95 <= st.maxVal
    ensures st.median == st.p50 && st.median in sorted
    ensures st.median == sorted[|sorted| / 2]
    ensures st.p10 == Percentile(sorted, 10) && st.p25 == Percentile(sorted, 25)
    ensures st.p50 == Percentile(sorted, 50) && st.p75 == Percentile(sorted, 75)
    ensures st.p90 == Percentile(sorted, 90) && st.p95 == Percentile(sorted, 95)
    ensures st.bands == BandCounts(Count(sorted, IsLow), Count(sorted, IsMedium), Count(sorted, IsHigh))
    ensures st.histogram == Histogram(sorted)
    ensures st.scale == HistogramScale(st.histogram)
    ensures st.rows == HistogramRows(st.histogram)
  {
    PercentileMonotone(sorted, 10, 25);
    PercentileMonotone(sorted, 25, 50);
    PercentileMonotone(sorted, 50, 75);
    PercentileMonotone(sorted, 75, 90);
    PercentileMonotone(sorted, 90, 95);
    SortedExtremes(sorted);
    var h := Histogram(sorted);
    Stats(
      |sorted|,
      Median(sorted),
      MinOf(sorted),
      MaxOf(sorted),
      Percentile(sorted, 10),
      Percentile(sorted, 25),
      Percentile(sorted, 50),
      Percentile(sorted, 75),
      Percentile(sorted, 90),
      Percentile(sorted, 95),
      CountBands(sorted),
      h,
      HistogramScale(h),
      HistogramRows(h))
  }

  /** Whatever is counted on the sorted list is counted the same on the input. */
  lemma SortedCountsAsInput(scores: seq<int>, sorted: seq<int>)
    requires multiset(sorted) == multiset(scores)
    ensures Count(sorted, IsLow) == Count(scores, IsLow)
    ensures Count(sorted, IsMedium) == Count(scores, IsMedium)
    ensures Count(sorted, IsHigh) == Count(scores, IsHigh)
  {
    CountPermutation(sorted, scores, IsLow);
    CountPermutation(sorted, scores, IsMedium);
    CountPermutation(sorted, scores, IsHigh);
  }

  /** The histogram of the sorted list counts the input's scores. */
  lemma HistogramAsInput(scores: seq<int>, sorted: seq<int>)
    requires multiset(sorted) == multiset(scores)
    ensures forall k :: k % DecileWidth == 0 ==> Tally.Get(Histogram(sorted), k) == Count(scores, InDecile(k))
  {
    forall k | k % DecileWidth == 0
      ensures Tally.Get(Histogram(sorted), k) == Count(scores, InDecile(k))
    {
      DecileCountAsInput(scores, sorted, k);
    }
  }

  lemma DecileCountAsInput(scores: seq<int>, sorted: seq<int>, k: int)
    requires multiset(sorted) == multiset(scores)
    requires k % DecileWidth == 0
    ensures Tally.Get(Histogram(sorted), k) == Count(scores, InDecile(k))
  {
    CountPermutation(sorted, scores, InDecile(k));
  }

  /** What the statistics promise about the scores they were computed from. */
  ghost predicate Describes(st: Stats, scores: seq<int>) {
    && st.n == |scores|
    && OrderStatsDescribe(st, scores)
    && BandsDescribe(st.bands, scores)
    && HistogramDescribes(st.histogram, scores)
    && RowsShow(st)
  }

  /**
   The order statistics are ordered, come from the list, and bound it; the
   median and every percentile sit at the rank the source indexes the sorted
   list with.
   */
  ghost predicate OrderStatsDescribe(st: Stats, scores: seq<int>) {
    && |scores| > 0
    && st.minVal <= st.p10 <= st.p25 <= st.p50 <= st.p75 <= st.p90 <= st.p95 <= st.maxVal
    && st.median == st.p50
    && st.minVal in scores && st.maxVal in scores && st.median in scores
    && (forall i :: 0 <= i < |scores| ==> st.minVal <= scores[i] <= st.maxVal)
    && RankedAt(st.median, |scores| / 2, scores)
    && RankedAt(st.p10, PercentileIndex(|scores|, 10), scores)
    && RankedAt(st.p25, PercentileIndex(|scores|, 25), scores)
    && RankedAt(st.p50, PercentileIndex(|scores|, 50), scores)
    && RankedAt(st.p75, PercentileIndex(|scores|, 75), scores)
    && RankedAt(st.p90, PercentileIndex(|scores|, 90), scores)
    && RankedAt(st.p95, PercentileIndex(|scores|, 95), scores)
  }

  /** The three bands split the list. */
  ghost predicate BandsDescribe(b: BandCounts, scores: seq<int>) {
    && b.low + b.medium + b.high == |scores|
    && b.low == Count(scores, IsLow)
    && b.medium == Count(scores, IsMedium)
    && b.high == Count(scores, IsHigh)
  }

  /** Every score lands in exactly one bucket of ten. */
  ghost predicate HistogramDescribes(h: Tally.Counter<int>, scores: seq<int>) {
    && Tally.DistinctKeys(h) && Tally.Positive(h)
    && Tally.Total(h) == |scores|
    && (forall k :: k % DecileWidth == 0 ==> Tally.Get(h, k) == Count(scores, InDecile(k)))
  }

  /**
   The scale is the largest bucket count, and the shown rows are buckets 0, 10,
   ..., 100 in order, each reading its count from the histogram and drawing the
   bar that count earns against the scale; only a fullest bucket gets a full bar.
   */
  ghost predicate RowsShow(st: Stats) {
    && Tally.DistinctKeys(st.histogram) && Tally.Positive(st.histogram)
    && st.scale == HistogramScale(st.histogram)
    && |st.rows| == ShownBuckets
    && (forall i :: 0 <= i < ShownBuckets ==>
          && st.rows[i].bucket == i * DecileWidth
          && st.rows[i].count == Tally.Get(st.histogram, i * DecileWidth)
          && st.rows[i].barLen == BarLength(st.rows[i].count, st.scale)
          && st.rows[i].barLen <= BarWidth
          && (st.rows[i].barLen == BarWidth <==> st.rows[i].count == st.scale))
  }

  lemma SummaryDescribes(scores: seq<int>)
    requires |scores| > 0
    ensures Describes(Summarize(Sort(scores)), scores)
  {
    var sorted := Sort(scores);
    SummaryOrderStats(scores, sorted);
    SummaryBands(scores, sorted);
    HistogramAsInput(scores, sorted);
    SummaryRows(sorted);
  }

  lemma SummaryOrderStats(scores: seq<int>, sorted: seq<int>)
    requires sorted == Sort(scores) && |scores| > 0
    ensures OrderStatsDescribe(Summarize(sorted), scores)
  {
    var st := Summarize(sorted);
    var lo, hi := sorted[0], sorted[|sorted| - 1];
    assert st.minVal == lo && st.maxVal == hi;
    forall i | 0 <= i < |scores| ensures lo <= scores[i] <= hi {
      assert scores[i] in multiset(sorted);
      SortedBounds(sorted, scores[i]);
    }
    FromSorted(scores, sorted, st.minVal);
    FromSorted(scores, sorted, st.maxVal);
    FromSorted(scores, sorted, st.median);
    IndexRank(scores, sorted, |scores| / 2);
    PercentileRank(scores, sorted, 10);
    PercentileRank(scores, sorted, 25);
    PercentileRank(scores, sorted, 50);
    PercentileRank(scores, sorted, 75);
    PercentileRank(scores, sorted, 90);
    PercentileRank(scores, sorted, 95);
  }

  lemma PercentileRank(scores: seq<int>, sorted: seq<int>, p: nat)
    requires sorted == Sort(scores) && |scores| > 0
    ensures RankedAt(Percentile(sorted, p), PercentileIndex(|scores|, p), scores)
  {
    IndexRank(scores, sorted, PercentileIndex(|scores|, p));
  }

  lemma IndexRank(scores: seq<int>, sorted: seq<int>, i: nat)
    requires sorted == Sort(scores) && i < |scores|
    ensures RankedAt(sorted[i], i, scores)
  {
    SortedRank(sorted, i);
    CountPermutation(sorted, scores, Below(sorted[i]));
    CountPermutation(sorted, scores, AtMost(sorted[i]));
  }

  lemma SortedBounds(sorted: seq<int>, x: int)
    requires Sorted(sorted) && x in multiset(sorted)
    ensures sorted[0] <= x <= sorted[|sorted| - 1]
  {
    assert x in sorted;
  }

  lemma FromSorted(scores: seq<int>, sorted: seq<int>, x: int)
    requires multiset(sorted) == multiset(scores) && x in sorted
    ensures x in scores
  {
    assert x in multiset(sorted);
  }

  lemma SummaryBands(scores: seq<int>, sorted: seq<int>)
    requires sorted == Sort(scores) && |scores| > 0
    ensures BandsDescribe(Summarize(sorted).bands, scores)
  {
    SortedCountsAsInput(scores, sorted);
    assert Summarize(sorted).bands == CountBands(sorted);
  }

  lemma SummaryRows(sorted: seq<int>)
    requires Sorted(sorted) && |sorted| > 0
    ensures RowsShow(Summarize(sorted))
  {
  }

  /**
   For the scores 100 and 0, any statistics that describe them have a 10th
   percentile of 0: the rank clauses of `Describes`, which `Analyze` promises,
   fix each percentile's value without looking at how it was computed.
   */
  lemma TenthPercentileOfTwo(st: Stats)
    requires Describes(st, [100, 0])
    ensures st.p10 == 0
  {
    assert PercentileIndex(2, 10) == 0;
    LowestOfTwo(st.p10);
  }

  lemma LowestOfTwo(v: int)
    requires RankedAt(v, 0, [100, 0])
    ensures v == 0
  {
    var scores := [100, 0];
    assert RankedAt(0, 0, scores) by {
      assert scores[1..][1..] == [];
      assert Count(scores, Below(0)) == 0;
      assert Count(scores, AtMost(0)) == 1;
    }
    RankedAtUnique(v, 0, 0, scores);
  }

  /** The analysis of one score list without its printing; `None` is the "No data" case (scripts/analyze-engagement.py:29-107). */
  function Analyze(scores: seq<int>): (r: Option<Stats>)
    ensures r.None? <==> |scores| == 0
    ensures r.Some? ==> Describes(r.value, scores)
  {
    if |scores| == 0 then None
    else
      SummaryDescribes(scores);
      Some(Summarize(Sort(scores)))
  }
}
