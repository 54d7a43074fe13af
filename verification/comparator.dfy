/**
 `analyze_by_source`: the heuristic and API score lists of one platform's
 calibration entries, their distributions, and the comparison of the two
 scores on the entries that carry both.
 */
module Comparator {
  import opened Records
  import opened Seqs
  import Distribution

  /** A difference beyond this many points, either way, is not "close". */
  const CloseMargin: int := 10

  /** The entry carries a heuristic score (scripts/analyze-engagement.py:111). */
  predicate HasHeuristic(r: Record) {
    r.heuristicScore.Some?
  }

  /** The entry carries an API score that is not null (scripts/analyze-engagement.py:112). */
  predicate HasApi(r: Record) {
    r.apiScore.Value?
  }

  /** The entries the comparison pairs up. */
  predicate HasPair(r: Record) {
    HasHeuristic(r) && HasApi(r)
  }

  /** The heuristic scores of the entries that have one, in entry order (scripts/analyze-engagement.py:111). */
  function HeuristicScores(cal: seq<Record>): (hs: seq<int>)
    ensures var kept := Select(cal, HasHeuristic, true);
      |hs| == |kept| && forall j :: 0 <= j < |hs| ==> kept[j].heuristicScore == Some(hs[j])
  {
    if |cal| == 0 then []
    else if HasHeuristic(cal[0]) then [cal[0].heuristicScore.value] + HeuristicScores(cal[1..])
    else HeuristicScores(cal[1..])
  }

  /** The non-null API scores of the entries that have one, in entry order (scripts/analyze-engagement.py:112). */
  function ApiScores(cal: seq<Record>): (api: seq<int>)
    ensures var kept := Select(cal, HasApi, true);
      |api| == |kept| && forall j :: 0 <= j < |api| ==> kept[j].apiScore == Value(api[j])
  {
    if |cal| == 0 then []
    else if HasApi(cal[0]) then [cal[0].apiScore.value] + ApiScores(cal[1..])
    else ApiScores(cal[1..])
  }

  datatype ScorePair = ScorePair(heuristic: int, api: int)

  /** The two scores of every entry that has both, in order (scripts/analyze-engagement.py:118-120). */
  function Paired(cal: seq<Record>): (ps: seq<ScorePair>)
    ensures |ps| == Count(cal, HasPair) <= |cal|
  {
    if |cal| == 0 then []
    else if HasPair(cal[0]) then
      [ScorePair(cal[0].heuristicScore.value, cal[0].apiScore.value)] + Paired(cal[1..])
    else Paired(cal[1..])
  }

  /** The pairs are the two scores of the entries kept by the pairing filter, one for one and in order. */
  lemma {:induction false} PairedMatchesSelect(cal: seq<Record>)
    ensures var kept := Select(cal, HasPair, true);
      |Paired(cal)| == |kept|
      && forall j :: 0 <= j < |kept| ==>
           kept[j].heuristicScore == Some(Paired(cal)[j].heuristic)
           && kept[j].apiScore == Value(Paired(cal)[j].api)
  {
    if |cal| > 0 {
      PairedMatchesSelect(cal[1..]);
    }
  }

  /** For each pair, how far the API score lies above the heuristic one (scripts/analyze-engagement.py:128). */
  function Diffs(ps: seq<ScorePair>): (ds: seq<int>)
    ensures |ds| == |ps|
    ensures forall i :: 0 <= i < |ps| ==> ds[i] == ps[i].api - ps[i].heuristic
  {
    if |ps| == 0 then [] else [ps[0].api - ps[0].heuristic] + Diffs(ps[1..])
  }

  predicate IsOver(d: int) { d > CloseMargin }
  predicate IsUnder(d: int) { d < -CloseMargin }
  predicate IsClose(d: int) { -CloseMargin <= d <= CloseMargin }
  predicate IsFar(d: int) { d > CloseMargin || d < -CloseMargin }

  /** The entries that have both scores and whose difference `api - heuristic` satisfies `f`. */
  function OnDiff(f: int -> bool): Record -> bool {
    r => HasPair(r) && f(r.apiScore.value - r.heuristicScore.value)
  }

  /** Counting over the diffs is counting over the entries they came from. */
  lemma {:induction false} DiffCountByRecord(cal: seq<Record>, f: int -> bool)
    ensures Count(Diffs(Paired(cal)), f) == Count(cal, OnDiff(f))
  {
    if |cal| > 0 {
      DiffCountByRecord(cal[1..], f);
      if HasPair(cal[0]) {
        var r := cal[0];
        var d := r.apiScore.value - r.heuristicScore.value;
        PairedHead(cal);
        DiffsHead(ScorePair(r.heuristicScore.value, r.apiScore.value), Paired(cal[1..]));
        CountHead(d, Diffs(Paired(cal[1..])), f);
      }
    }
  }

  lemma PairedHead(cal: seq<Record>)
    requires |cal| > 0 && HasPair(cal[0])
    ensures Paired(cal) == [ScorePair(cal[0].heuristicScore.value, cal[0].apiScore.value)] + Paired(cal[1..])
  {
  }

  lemma DiffsHead(p: ScorePair, ps: seq<ScorePair>)
    ensures Diffs([p] + ps) == [p.api - p.heuristic] + Diffs(ps)
  {
    assert ([p] + ps)[1..] == ps;
  }

  lemma CountHead(d: int, ds: seq<int>, f: int -> bool)
    ensures Count([d] + ds, f) == (if f(d) then 1 else 0) + Count(ds, f)
  {
    assert ([d] + ds)[1..] == ds;
  }

  datatype Comparison = Comparison(paired: nat, over: nat, under: nat, close: nat)

  /** The comparison block of `analyze_by_source`; `None` when nothing is paired and the block is skipped. */
  function Compare(cal: seq<Record>): (r: Option<Comparison>)
    ensures r.None? <==> Count(cal, HasPair) == 0
    ensures r.Some? ==> r.value.paired == Count(cal, HasPair) <= |cal|
    ensures r.Some? ==> r.value.over + r.value.under + r.value.close == r.value.paired
    ensures r.Some? ==> r.value.over == Count(cal, OnDiff(IsOver))
    ensures r.Some? ==> r.value.under == Count(cal, OnDiff(IsUnder))
    ensures r.Some? ==> r.value.close == Count(cal, OnDiff(IsClose))
  {
    var ps := Paired(cal);
    PairedMatchesSelect(cal);
    if |ps| == 0 then None
    else
      var ds := Diffs(ps);
      var over := Count(ds, IsOver);
      var under := Count(ds, IsUnder);
      DiffsSplit(ds);
      DiffCountByRecord(cal, IsOver);
      DiffCountByRecord(cal, IsUnder);
      DiffCountByRecord(cal, IsClose);
      Some(Comparison(|ps|, over, under, |ds| - over - under))
  }

  /** Over, under and close split the diffs. */
  lemma DiffsSplit(ds: seq<int>)
    ensures Count(ds, IsOver) + Count(ds, IsUnder) + Count(ds, IsClose) == |ds|
  {
    CountDisjointUnion(ds, IsOver, IsUnder, IsFar);
    CountDisjointUnion(ds, IsFar, IsClose, Any);
    CountNoneOrAll(ds, Any);
  }

  /** A difference of exactly 10 either way is close; 11 is over and -11 under. */
  lemma MarginBoundaries()
    ensures IsClose(10) && IsClose(-10) && IsOver(11) && IsUnder(-11)
    ensures !IsOver(10) && !IsUnder(-10)
  {
  }

  /** Pairs (50, 60), (50, 40), (50, 51): every difference is within the margin. */
  lemma AllWithinMargin()
    ensures var cal := [
        Record(None, None, Some(50), Value(60), None),
        Record(None, None, Some(50), Value(40), None),
        Record(None, None, Some(50), Value(51), None)];
      Compare(cal) == Some(Comparison(3, 0, 0, 3))
  {
    var cal := [
        Record(None, None, Some(50), Value(60), None),
        Record(None, None, Some(50), Value(40), None),
        Record(None, None, Some(50), Value(51), None)];
    var ps := [ScorePair(50, 60), ScorePair(50, 40), ScorePair(50, 51)];
    assert Paired(cal[2..]) == ps[2..];
    assert Paired(cal[1..]) == ps[1..];
    assert Paired(cal) == ps;
    var ds := [10, -10, 1];
    assert Diffs(ps[2..]) == ds[2..];
    assert Diffs(ps[1..]) == ds[1..];
    assert Diffs(ps) == ds;
    assert Count(ds, IsOver) == 0 && Count(ds, IsUnder) == 0 by {
      CountNoneOrAll(ds, IsOver);
      CountNoneOrAll(ds, IsUnder);
    }
  }

  datatype BySource = BySource(
    heuristic: Option<Distribution.Stats>,
    api: Option<Distribution.Stats>,
    comparison: Option<Comparison>
  )

  /** The analysis of one platform's calibration entries, without its printing (scripts/analyze-engagement.py:109-140). */
  function AnalyzeBySource(cal: seq<Record>): (r: BySource)
    ensures r.heuristic.None? <==> Count(cal, HasHeuristic) == 0
    ensures r.heuristic.Some? ==>
      r.heuristic.value.n == Count(cal, HasHeuristic)
      && Distribution.Describes(r.heuristic.value, HeuristicScores(cal))
    ensures r.api.None? <==> Count(cal, HasApi) == 0
    ensures r.api.Some? ==>
      r.api.value.n == Count(cal, HasApi)
      && Distribution.Describes(r.api.value, ApiScores(cal))
    // Every paired entry has both scores, so it is counted in both distributions.
    ensures r.comparison.Some? ==>
      r.heuristic.Some? && r.api.Some?
      && r.comparison.value.paired <= r.heuristic.value.n
      && r.comparison.value.paired <= r.api.value.n
    ensures r.comparison == Compare(cal)
  {
    CountMonotone(cal, HasPair, HasHeuristic);
    CountMonotone(cal, HasPair, HasApi);
    BySource(
      Distribution.Analyze(HeuristicScores(cal)),
      Distribution.Analyze(ApiScores(cal)),
      Compare(cal))
  }
}
