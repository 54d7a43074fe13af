# Engagement analysis, modelled in Dafny

`scripts/analyze-engagement.py` reads a BumpyBrain export. It splits the
calibration entries and the session posts into Twitter and Reddit. Then it
prints, per platform:

- the distribution of the heuristic and API engagement scores: order
  statistics, the low/medium/high bands and a histogram in tens;
- how the two scores compare on entries that carry both;
- how the session posts are spread over the engagement bucket labels.

This project models the logic behind that output as pure functions over
immutable data:

- `Records` holds an export and its records. A JSON key that may be absent
  is an `Option`. `apiScore`, which may also be `null`, is a three-state
  `Nullable`.
- `Platform` is the platform classifier `is_twitter_post`.
- `Sorting` stands in for Python's `sorted`. `Distribution` holds the
  numeric part of `analyze_distribution`.
- `Comparator` is `analyze_by_source`: the score lists, the pairing of the
  two scores, and the over/under/close classification of their differences.
- `Report` is `main` once the export is loaded: the header counts, the
  platform split, the flattening of the sessions and the bucket-label tally.
- `Seqs` and `Tally` are the generic pieces underneath. `Count` is the number of
  elements that pass a test, as the source's generator sums compute it.
  `Select` keeps the elements that pass, in order, like a filtering list
  comprehension. A `Counter` is an insertion-ordered list of key/count
  entries that behaves like a `defaultdict(int)`.

Scores are mathematical integers. Every threshold, decile key and ±10
classification in the source is integral, so nothing here depends on a
machine width.

## Model

| member | source | states |
|---|---|---|
| Platform.IsDigitString | scripts/analyze-engagement.py:25 | `isdigit` holds exactly for a non-empty string whose every character is a digit, so an empty id never passes the digit rule. |
| Platform.IsTwitterPost | scripts/analyze-engagement.py:16-27 | A subreddit starting with `@` makes a record Twitter whatever its id. Otherwise it is Twitter exactly when the post id is longer than 15 characters and all digits. With an empty or missing id, only the `@` rule can make it Twitter. |
| Platform.LongNumericIdIsTwitter | scripts/analyze-engagement.py:24-26 | A record with no subreddit key and a 16-digit id is Twitter. |
| Platform.FifteenDigitIdIsReddit | scripts/analyze-engagement.py:25-27 | A 15-digit id under an ordinary subreddit is Reddit: the length test is strict. |
| Platform.AlphanumericIdIsReddit | scripts/analyze-engagement.py:25-27 | An id containing a letter is Reddit. |
| Sorting.Sort | scripts/analyze-engagement.py:35 | The result is sorted, has the same length and is a permutation of the input. |
| Sorting.SortedPermutationUnique | scripts/analyze-engagement.py:35 | Two sorted permutations of the same list are equal, so any sorting function gives the list `sorted` gives. |
| Distribution.PercentileIndex | scripts/analyze-engagement.py:45-47 | The clamped index is always in bounds. It is the largest index `i` with `100*i <= n*p`, or `n-1` when that would fall past the end. |
| Distribution.Percentile | scripts/analyze-engagement.py:45-47 | A percentile is an element of the list and lies between its first and last elements when the list is sorted. |
| Distribution.PercentileMonotone | scripts/analyze-engagement.py:45-54 | On a sorted list, a larger `p` never gives a smaller percentile. |
| Distribution.Median | scripts/analyze-engagement.py:40 | The reported median is always the 50th percentile. |
| Distribution.MedianOfFourIsUpperMiddle | scripts/analyze-engagement.py:40 | For 10, 20, 30, 40 the median is 30, the upper middle element, not 25. |
| Distribution.MinOf | scripts/analyze-engagement.py:41 | `min` returns an element that no element is below. |
| Distribution.MaxOf | scripts/analyze-engagement.py:42 | `max` returns an element that no element is above. |
| Distribution.SortedExtremes | scripts/analyze-engagement.py:35-42 | On the sorted list, min is the first element and max the last. |
| Distribution.CountBands | scripts/analyze-engagement.py:56-59 | Low, medium and high add up to the list length. On a sorted list they are a prefix, a middle run and a suffix. |
| Distribution.BandBoundaries | scripts/analyze-engagement.py:57-59 | 39 is low, 40 and 69 are medium, 70 is high. |
| Distribution.DecileKey | scripts/analyze-engagement.py:84 | The key is a multiple of 10, and the score lies in `[key, key+10)`. |
| Distribution.DecileCount | scripts/analyze-engagement.py:82-85 | The number of scores tallied under a multiple of ten `k` is the number of scores in `[k, k+10)`. |
| Distribution.Histogram | scripts/analyze-engagement.py:82-85 | Each key holds the number of scores in its ten, keys are distinct, present keys are positive, and the counts add up to `n`. Keys that are not multiples of ten read 0. |
| Distribution.HistogramScale | scripts/analyze-engagement.py:87 | The scale is positive and at least every bucket's count. It is held by an actual bucket when there is one, and it is 1 for an empty histogram. |
| Distribution.BarLength | scripts/analyze-engagement.py:90 | A bar is 0 when the scale is 0. Otherwise it is at most 40 for a count up to the scale, and exactly 40 only for a count equal to the scale. |
| Distribution.BarLengthIsFloor | scripts/analyze-engagement.py:90 | The bar length is the integer part of `40*count/scale`. |
| Distribution.HistogramRows | scripts/analyze-engagement.py:88-90 | There are 11 rows, for buckets 0 to 100 in steps of 10. Each reads its bucket's count, 0 when absent. Each bar is `40 * count // scale` with the scale the largest count. So each bar is at most 40, and a bar is full exactly for a bucket holding the largest count. |
| Distribution.ShownRowsCoverAll | scripts/analyze-engagement.py:82-92 | The printed rows add up to `n` exactly when every score lies in 0..109. Scores outside that range are tallied but never displayed. |
| Distribution.Summarize | scripts/analyze-engagement.py:35-59 | On a sorted non-empty list: min ≤ p10 ≤ p25 ≤ p50 ≤ p75 ≤ p90 ≤ p95 ≤ max. The median is the element at `n // 2` and equals p50. Each pK is the list's K-th percentile, min and max are the two ends, and the bands and histogram are those of the list. |
| Distribution.SummaryDescribes | scripts/analyze-engagement.py:35-90 | The statistics of the sorted list describe the unsorted input. Min, max and median are among its scores and bound it. The median sits at rank `n // 2` of the input. Each percentile sits at rank `min(n*p // 100, n-1)`: at most that many scores lie below it and more than that many are at most it. The band and histogram counts count its scores. The histogram's keys are distinct and its counts positive, and the scale is its largest count. The 11 rows are buckets 0, 10, …, 100 in order. Each row shows its bucket's count and the bar `40 * count // scale`, and a bar is full exactly for a bucket holding the largest count. |
| Distribution.Analyze | scripts/analyze-engagement.py:29-92 | There is no result ("No data") exactly for an empty list. Otherwise the result describes the scores as above, which fixes the median and every percentile to one value. |
| Distribution.SortedRank | scripts/analyze-engagement.py:35-47 | In a sorted list, the element at index `i` has at most `i` elements below it and more than `i` at or below it. |
| Distribution.RankedAtUnique | scripts/analyze-engagement.py:40-54 | Two values at the same rank of the same scores are equal, so the rank statement pins the reported median and percentiles. |
| Distribution.PercentileRank | scripts/analyze-engagement.py:45-54 | The `p`-th percentile of the sorted scores sits at rank `min(n*p // 100, n-1)` of the unsorted input. |
| Distribution.TenthPercentileOfTwo | scripts/analyze-engagement.py:45-49 | Any statistics that `Describes` the scores 100 and 0, which is what `Analyze` promises for them, have p10 = 0. The rank clauses alone fix the value. |
| Tally.Increment | scripts/analyze-engagement.py:85 | Counting one more item under `k` raises `k`'s count by one, leaves every other key alone and adds one to the total. It keeps keys distinct and counts positive. |
| Tally.TallyBy | scripts/analyze-engagement.py:197-199 | After counting every element under its key, each key reads the number of elements with that key, every element's key is present, and the total is the number of elements. |
| Comparator.HeuristicScores | scripts/analyze-engagement.py:111 | One score per entry that has a heuristic score, in order, each equal to that entry's score. |
| Comparator.ApiScores | scripts/analyze-engagement.py:112 | One score per entry whose API score is present and not null, in order, each equal to that entry's score. |
| Comparator.Paired | scripts/analyze-engagement.py:118-120 | There is one pair per entry that has both a heuristic score and a non-null API score, so no more pairs than entries. |
| Comparator.PairedMatchesSelect | scripts/analyze-engagement.py:118-120 | The pairs are exactly the two scores of the entries having both, one for one and in order. So there are never more pairs than entries. |
| Comparator.Diffs | scripts/analyze-engagement.py:128 | One difference per pair, in order: the `i`-th is the `i`-th pair's API score minus its heuristic score. |
| Comparator.DiffCountByRecord | scripts/analyze-engagement.py:128 | Counting differences of a kind is counting the paired entries whose `api - heuristic` is of that kind. |
| Comparator.DiffsSplit | scripts/analyze-engagement.py:131-133 | Over (>10), under (<-10) and close (within [-10, 10]) split the differences. |
| Comparator.Compare | scripts/analyze-engagement.py:118-133 | There is no comparison exactly when no entry has both scores. Otherwise `paired` counts those entries, and over + under + close = paired. Over, under and close count the entries that differ by more than 10 up, by more than 10 down, and by at most 10. |
| Comparator.MarginBoundaries | scripts/analyze-engagement.py:131-133 | A difference of ±10 is close, 11 is over and -11 is under. |
| Comparator.AllWithinMargin | scripts/analyze-engagement.py:128-133 | Differences 10, -10 and 1 are all close. |
| Comparator.AnalyzeBySource | scripts/analyze-engagement.py:109-140 | Each score distribution is absent exactly when no entry has that score. Otherwise it describes that score list and has one element per such entry. A comparison implies both distributions exist and that the pair count is at most either size. |
| Report.SplitByPlatform | scripts/analyze-engagement.py:166-167 | The Twitter and Reddit lists are the classifier's two sides. Every record lands on exactly one of them. The lengths add up and both sides keep the original order. Together they are a permutation of the input. |
| Report.AllPosts | scripts/analyze-engagement.py:181-184 | Every post of every session is among the collected posts. |
| Report.AllPostsFromSessions | scripts/analyze-engagement.py:181-184 | Every collected post belongs to some session. |
| Report.AllPostsAppend | scripts/analyze-engagement.py:182-184 | Collecting from two runs of sessions gives the posts of the first run followed by those of the second. Every duplicate is kept, in order. |
| Report.AllPostsSingle | scripts/analyze-engagement.py:183-184 | One session contributes exactly its own posts, and none when it has no `posts` key. Together with `AllPostsAppend`, this makes the collected posts the concatenation of the sessions' posts. |
| Report.Label | scripts/analyze-engagement.py:199 | A post is counted under its `bucket` when it has one, and under `unknown` when it has none. |
| Report.DisplayedBuckets | scripts/analyze-engagement.py:202 | The printed labels are distinct and include `unknown`. |
| Report.ShownRows | scripts/analyze-engagement.py:202-204 | A row is printed exactly for each listed label the tally holds, with that label's positive count. |
| Report.ShownRowsTotal | scripts/analyze-engagement.py:202-204 | The printed counts add up to the counts read back for the listed labels, an absent label reading 0. |
| Report.BucketsOf | scripts/analyze-engagement.py:194-204 | An empty platform is skipped. Otherwise the total is the number of posts. Each label reads the number of posts with that `bucket`, with `unknown` for posts without one, and the counts add up to the total. |
| Report.RowsAccountForAll | scripts/analyze-engagement.py:197-204 | The printed counts never exceed the total. They reach it exactly when every post's label is low, medium, high or unknown. |
| Report.SessionBuckets | scripts/analyze-engagement.py:186-204 | A platform's session distribution exists exactly when it has posts. It totals that platform's posts and counts each label among them. Its printed rows are the listed labels its counter holds, and the two distributions count every post once. |
| Report.Analyze | scripts/analyze-engagement.py:159-204 | The export date is the `exportDate` value, or `unknown` when the key is missing. The session count is the number of sessions. Twitter plus Reddit equals the calibration count, and a platform is analysed exactly when it has entries. Each platform is analysed on its own calibration entries. The bucket distributions are those of the posts of all sessions taken together. |
| Report.EmptyExport | scripts/analyze-engagement.py:159-186 | An export with none of its keys reports zero counts and no analysis. |
| Report.HandleEntryIsTwitterOnly | scripts/analyze-engagement.py:163-178 | One entry for `@bob` with heuristic 30 and API 45 is one Twitter entry. Reddit is not analysed, and the one pair is "API higher by more than 10". |

## Left out

- Loading the export: argument handling, the search for the newest export file, `sys.exit` and JSON parsing (`scripts/analyze-engagement.py:12-14`, `:143-157`). The model starts from an already-parsed `Export`.
- All printing: headings, percentages, the `█` bar characters and the "suggested thresholds" text. Only the numbers they show are modelled. Line 97 labels `p90` as the "80th percentile"; that is a label on printed text and changes no value.
- `mean`, `mean_diff` and the percentage figures (`:39`, `:129`, `:76-78`, `:136-138`, `:204`): they are float divisions used only for display.
- Distribution.PercentileIndex: `int(n * p / 100)` is a float division truncated to an integer. It is modelled as exact integer division, which agrees unless `n * p` is large enough for the float to round across an integer.
- Distribution.BarLength: `int(40 * count / max_count)` is likewise modelled as exact integer division.
- Platform.IsTwitterPost: `str.isdigit` also accepts non-ASCII digits such as superscripts and other scripts' digits. The model accepts only `0`-`9`.
- Sorting.Sort: the source calls Python's `sorted`. An insertion sort stands in for it, and `SortedPermutationUnique` shows the choice does not matter.
- Scores are integers. A JSON float score (e.g. `72.5`) and a non-numeric score are not modelled. Other fields are strings or absent; a JSON `null` subreddit, post id or bucket is not modelled (the source would raise on it or count it under its own key).
- A bucket label that is present but is none of low/medium/high/unknown is counted under its own key and never printed; it is not mapped to `unknown`. The model follows the code here (`:199`, `:202-204`). `Report.RowsAccountForAll` states exactly when the printed counts fall short of the total.
- The `label_prefix` and `label` strings only title printed sections, so they are not parameters of the model.
