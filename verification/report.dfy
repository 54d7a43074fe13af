/**
 The body of `main` once the export is loaded: the header counts, the split of
 calibration entries and session posts by platform, the per-platform score
 analysis, and the per-platform bucket distribution of session posts.
 */
module Report {
  import opened Records
  import opened Seqs
  import opened Tally
  import opened Platform
  import Comparator

  /** Records of one list, split by `is_twitter_post`. */
  datatype PlatformSplit = PlatformSplit(twitter: seq<Record>, reddit: seq<Record>)

  /**
   The records the classifier calls Twitter, and the rest as Reddit
   (scripts/analyze-engagement.py:166-167, 187-188): every record goes to exactly
   one side, in its original order.
   */
  function SplitByPlatform(rs: seq<Record>): (sp: PlatformSplit)
    ensures |sp.twitter| + |sp.reddit| == |rs|
    ensures |sp.twitter| == Count(rs, IsTwitterPost)
    ensures forall i :: 0 <= i < |sp.twitter| ==> IsTwitterPost(sp.twitter[i])
    ensures forall i :: 0 <= i < |sp.reddit| ==> !IsTwitterPost(sp.reddit[i])
    ensures forall i :: 0 <= i < |rs| && IsTwitterPost(rs[i]) ==> rs[i] in sp.twitter
    ensures forall i :: 0 <= i < |rs| && !IsTwitterPost(rs[i]) ==> rs[i] in sp.reddit
    ensures forall x :: x in sp.twitter ==> x !in sp.reddit
    ensures IsSubsequence(sp.twitter, rs) && IsSubsequence(sp.reddit, rs)
    ensures multiset(sp.twitter) + multiset(sp.reddit) == multiset(rs)
  {
    SelectIsSubsequence(rs, IsTwitterPost, true);
    SelectIsSubsequence(rs, IsTwitterPost, false);
    SelectSplits(rs, IsTwitterPost);
    PlatformSplit(Select(rs, IsTwitterPost, true), Select(rs, IsTwitterPost, false))
  }

  /** The posts of every session, session by session and in order (scripts/analyze-engagement.py:181-184). */
  function AllPosts(sessions: seq<Session>): (ps: seq<Record>)
    ensures forall i, j :: 0 <= i < |sessions| && 0 <= j < |PostsOf(sessions[i])| ==>
      PostsOf(sessions[i])[j] in ps
  {
    if |sessions| == 0 then []
    else
      var rest := AllPosts(sessions[1..]);
      assert forall i :: 1 <= i < |sessions| ==> sessions[i] == sessions[1..][i - 1];
      PostsOf(sessions[0]) + rest
  }

  /** Every collected post comes from some session. */
  lemma {:induction false} AllPostsFromSessions(sessions: seq<Session>, p: Record)
    requires p in AllPosts(sessions)
    ensures exists i :: 0 <= i < |sessions| && p in PostsOf(sessions[i])
  {
    if p !in PostsOf(sessions[0]) {
      AllPostsFromSessions(sessions[1..], p);
      var i :| 0 <= i < |sessions[1..]| && p in PostsOf(sessions[1..][i]);
      assert p in PostsOf(sessions[i + 1]);
    }
  }

  /** Collecting from two runs of sessions is collecting from each and concatenating, duplicates and order kept. */
  lemma {:induction false} AllPostsAppend(a: seq<Session>, b: seq<Session>)
    ensures AllPosts(a + b) == AllPosts(a) + AllPosts(b)
  {
    if |a| == 0 {
      assert a + b == b;
    } else {
      assert (a + b)[1..] == a[1..] + b;
      AllPostsAppend(a[1..], b);
    }
  }

  /** One session contributes exactly its own posts, or none when it has no `posts` key. */
  lemma AllPostsSingle(s: Session)
    ensures AllPosts([s]) == PostsOf(s)
    ensures s.posts.None? ==> AllPosts([s]) == []
  {
    assert [s][1..] == [];
  }

  /** The label a post is counted under when it has no `bucket`. */
  const UnknownBucket: string := "unknown"

  /** The label a post is counted under: its bucket, or `unknown` when it has none (scripts/analyze-engagement.py:199). */
  function Label(r: Record): (l: string)
    ensures r.bucket.Some? ==> l == r.bucket.value
    ensures r.bucket.None? ==> l == UnknownBucket
  {
    r.bucket.GetOr(UnknownBucket)
  }

  /** The labels printed, in print order; any other label is counted but not shown. */
  function DisplayedBuckets(): (ls: seq<string>)
    ensures Distinct(ls) && UnknownBucket in ls
  {
    ["low", "medium", "high", UnknownBucket]
  }

  datatype LabelRow = LabelRow(bucket: string, count: nat)

  /** One row per listed label the counter holds, in list order (scripts/analyze-engagement.py:202-204). */
  function ShownRows(c: Counter<string>, ls: seq<string>): (rows: seq<LabelRow>)
    requires Positive(c)
    ensures forall i :: 0 <= i < |rows| ==>
      rows[i].bucket in ls && Contains(c, rows[i].bucket)
      && rows[i].count == Get(c, rows[i].bucket) && rows[i].count > 0
    ensures forall i :: 0 <= i < |ls| && Contains(c, ls[i]) ==> LabelRow(ls[i], Get(c, ls[i])) in rows
  {
    if |ls| == 0 then []
    else
      var rest := ShownRows(c, ls[1..]);
      if Contains(c, ls[0]) then [LabelRow(ls[0], Get(c, ls[0]))] + rest else rest
  }

  function RowsTotal(rows: seq<LabelRow>): nat {
    if |rows| == 0 then 0 else rows[0].count + RowsTotal(rows[1..])
  }

  /** The shown rows add up to the counts read back for the listed labels, absent ones reading 0. */
  lemma {:induction false} ShownRowsTotal(c: Counter<string>, ls: seq<string>)
    requires Positive(c)
    ensures RowsTotal(ShownRows(c, ls)) == SumAt(c, ls)
  {
    if |ls| > 0 {
      ShownRowsTotal(c, ls[1..]);
      var rest := ShownRows(c, ls[1..]);
      if Contains(c, ls[0]) {
        assert ([LabelRow(ls[0], Get(c, ls[0]))] + rest)[1..] == rest;
      }
    }
  }

  /** The bucket distribution of one platform's session posts. */
  datatype BucketSummary = BucketSummary(total: nat, buckets: Counter<string>, rows: seq<LabelRow>)

  /** One turn of the loop over the two platforms; `None` when `posts` is empty and the turn is skipped. */
  function BucketsOf(posts: seq<Record>): (b: Option<BucketSummary>)
    ensures b.None? <==> |posts| == 0
    ensures b.Some? ==> b.value.total == |posts| && Total(b.value.buckets) == |posts|
    ensures b.Some? ==> DistinctKeys(b.value.buckets) && Positive(b.value.buckets)
    ensures b.Some? ==> forall l :: Get(b.value.buckets, l) == CountKey(posts, Label, l)
    ensures b.Some? ==> forall i :: 0 <= i < |posts| ==> Contains(b.value.buckets, Label(posts[i]))
    ensures b.Some? ==> b.value.rows == ShownRows(b.value.buckets, DisplayedBuckets())
  {
    if |posts| == 0 then None
    else
      var buckets := TallyBy(posts, Label);
      Some(BucketSummary(|posts|, buckets, ShownRows(buckets, DisplayedBuckets())))
  }

  /**
   The printed rows account for every post exactly when every post's label is
   one of the displayed ones: a post whose `bucket` is some other string is
   counted in the total but appears in no row.
   */
  lemma RowsAccountForAll(posts: seq<Record>)
    requires |posts| > 0
    ensures RowsTotal(BucketsOf(posts).value.rows) <= |posts|
    ensures RowsTotal(BucketsOf(posts).value.rows) == |posts| <==>
      forall i :: 0 <= i < |posts| ==> Label(posts[i]) in DisplayedBuckets()
  {
    ShownRowsTotal(TallyBy(posts, Label), DisplayedBuckets());
    ReadBackTotal(posts, Label, DisplayedBuckets());
    CountKeyInBound(posts, Label, DisplayedBuckets());
  }

  /** The two platforms' bucket distributions of the session posts, Reddit first as printed. */
  datatype PlatformBuckets = PlatformBuckets(reddit: Option<BucketSummary>, twitter: Option<BucketSummary>)

  /**
   The session half of `main`: nothing when there are no posts, otherwise one
   bucket distribution per platform that has posts.
   */
  function SessionBuckets(posts: seq<Record>): (b: PlatformBuckets)
    ensures b.twitter.Some? <==> Count(posts, IsTwitterPost) > 0
    ensures b.reddit.Some? <==> Count(posts, IsTwitterPost) < |posts|
    // Each platform's distribution counts that platform's posts.
    ensures var ps := SplitByPlatform(posts);
      b.twitter.Some? ==>
        b.twitter.value.total == |ps.twitter|
        && forall l :: Get(b.twitter.value.buckets, l) == CountKey(ps.twitter, Label, l)
    ensures var ps := SplitByPlatform(posts);
      b.reddit.Some? ==>
        b.reddit.value.total == |ps.reddit|
        && forall l :: Get(b.reddit.value.buckets, l) == CountKey(ps.reddit, Label, l)
    // The printed rows read each platform's own counter.
    ensures b.twitter.Some? ==>
      Positive(b.twitter.value.buckets)
      && b.twitter.value.rows == ShownRows(b.twitter.value.buckets, DisplayedBuckets())
    ensures b.reddit.Some? ==>
      Positive(b.reddit.value.buckets)
      && b.reddit.value.rows == ShownRows(b.reddit.value.buckets, DisplayedBuckets())
    // Between them the two distributions count every post once.
    ensures (if b.reddit.Some? then b.reddit.value.total else 0)
          + (if b.twitter.Some? then b.twitter.value.total else 0)
          == |posts|
  {
    var split := SplitByPlatform(posts);
    if |posts| > 0 then PlatformBuckets(BucketsOf(split.reddit), BucketsOf(split.twitter))
    else PlatformBuckets(None, None)
  }

  /** Everything `main` reports about one export, without the printing. */
  datatype Summary = Summary(
    exportDate: string,
    sessionCount: nat,
    calibrationCount: nat,
    twitterCount: nat,
    redditCount: nat,
    reddit: Option<Comparator.BySource>,
    twitter: Option<Comparator.BySource>,
    buckets: PlatformBuckets
  )

  /** `main` after `load_data`. */
  function Analyze(doc: Export): (rep: Summary)
    ensures rep.exportDate == if doc.exportDate.Some? then doc.exportDate.value else "unknown"
    ensures rep.sessionCount == |SessionsOf(doc)|
    ensures rep.calibrationCount == |CalibrationOf(doc)| == rep.twitterCount + rep.redditCount
    ensures rep.twitterCount == Count(CalibrationOf(doc), IsTwitterPost)
    ensures rep.reddit.Some? <==> rep.redditCount > 0
    ensures rep.twitter.Some? <==> rep.twitterCount > 0
    ensures rep.reddit.Some? ==>
      rep.reddit.value == Comparator.AnalyzeBySource(SplitByPlatform(CalibrationOf(doc)).reddit)
    ensures rep.twitter.Some? ==>
      rep.twitter.value == Comparator.AnalyzeBySource(SplitByPlatform(CalibrationOf(doc)).twitter)
    // The bucket distributions are those of the posts of all sessions together.
    ensures rep.buckets == SessionBuckets(AllPosts(SessionsOf(doc)))
  {
    var cal := CalibrationOf(doc);
    var calSplit := SplitByPlatform(cal);
    Summary(
      doc.exportDate.GetOr("unknown"),
      |SessionsOf(doc)|,
      |cal|,
      |calSplit.twitter|,
      |calSplit.reddit|,
      if |calSplit.reddit| > 0 then Some(Comparator.AnalyzeBySource(calSplit.reddit)) else None,
      if |calSplit.twitter| > 0 then Some(Comparator.AnalyzeBySource(calSplit.twitter)) else None,
      SessionBuckets(AllPosts(SessionsOf(doc))))
  }

  /** An export with no keys at all: zero counts and no analysis. */
  lemma EmptyExport()
    ensures Analyze(Export(None, None, None))
      == Summary("unknown", 0, 0, 0, 0, None, None, PlatformBuckets(None, None))
  {
  }

  /**
   One calibration entry for the handle `@bob` with heuristic 30 and API 45:
   it is counted as Twitter, only the Twitter side is analysed, and its one
   pair is "API higher by more than 10".
   */
  lemma HandleEntryIsTwitterOnly()
    ensures var e := Record(Some("@bob"), Some(""), Some(30), Value(45), None);
      var rep := Analyze(Export(None, None, Some([e])));
      rep.twitterCount == 1 && rep.redditCount == 0
      && rep.reddit.None? && rep.twitter.Some?
      && rep.twitter.value.comparison == Some(Comparator.Comparison(1, 1, 0, 0))
  {
    var e := Record(Some("@bob"), Some(""), Some(30), Value(45), None);
    HandleEntrySplit(e);
    HandleEntryCompare(e);
  }

  lemma HandleEntrySplit(e: Record)
    requires e == Record(Some("@bob"), Some(""), Some(30), Value(45), None)
    ensures SplitByPlatform([e]) == PlatformSplit([e], [])
  {
    assert IsTwitterPost(e);
    var cal := [e];
    assert Count(cal[1..], IsTwitterPost) == 0;
    var sp := SplitByPlatform(cal);
    assert |sp.twitter| == 1 && sp.twitter[0] in cal;
  }

  lemma HandleEntryCompare(e: Record)
    requires e == Record(Some("@bob"), Some(""), Some(30), Value(45), None)
    ensures Comparator.Compare([e]) == Some(Comparator.Comparison(1, 1, 0, 0))
  {
    var cal := [e];
    assert Count(cal, Comparator.HasPair) == 1 by {
      assert Count(cal[1..], Comparator.HasPair) == 0;
    }
    assert Count(cal, Comparator.OnDiff(Comparator.IsOver)) == 1 by {
      assert Count(cal[1..], Comparator.OnDiff(Comparator.IsOver)) == 0;
    }
    assert Count(cal, Comparator.OnDiff(Comparator.IsUnder)) == 0 by {
      assert Count(cal[1..], Comparator.OnDiff(Comparator.IsUnder)) == 0;
    }
  }
}
