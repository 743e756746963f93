/** Monthly evaluation analytics: domain scores and the overall score of one evaluation,
    the summary of a student over the months, and the two rankings built on it. */
module Evaluations {
  import opened Counting
  import opened Options
  import opened Rounding
  import opened Averages
  import R = Ranking

  datatype Domain = EDU | DEV | CHR | DIS | CUL | RES | SPT | ART | PER

  const DOMAINS: seq<Domain> := [EDU, DEV, CHR, DIS, CUL, RES, SPT, ART, PER]

  function DomainWeight(d: Domain): nat {
    match d
    case EDU => 20
    case DEV => 15
    case CHR => 15
    case DIS => 15
    case CUL => 7
    case RES => 8
    case SPT => 7
    case ART => 6
    case PER => 7
  }

  datatype Level = Excellent | Good | Average | Weak

  const METRIC_SCORE_MAX := 5

  /** A stored indicator; codes are unique within one evaluation. */
  datatype MetricRow = MetricRow(code: string, value: Option<int>)

  /** An indicator that takes part: catalogued and scored 0..5. */
  datatype Metric = Metric(code: string, domain: Domain, rawScore: int)

  datatype DomainScore = DomainScore(domain: Domain, weight: nat, score: Option<real>, completed: nat)

  datatype Summary = Summary(
    metrics: seq<Metric>,
    domainScores: seq<DomainScore>,
    overallScore: Option<real>,
    requiredMetrics: nat,
    completionPercent: real,
    isFinal: bool,
    level: Option<Level>)

  /** Python's `round(x, 2)` with exact arithmetic. */
  function Round2(x: real): real { Quantize(x, HalfEven, 2) }

  function PerformanceLevel(score: real): Level {
    if score >= 17.0 then Excellent
    else if score >= 14.0 then Good
    else if score >= 10.0 then Average
    else Weak
  }

  // ---------------------------------------------------------------- one evaluation

  predicate TakesPart(row: MetricRow, catalog: map<string, Domain>) {
    row.code in catalog && row.value.Some? && 0 <= row.value.value <= METRIC_SCORE_MAX
  }

  /** The indicators of an evaluation that take part, in stored order. */
  function Assessed(rows: seq<MetricRow>, catalog: map<string, Domain>): (metrics: seq<Metric>)
    ensures forall i :: 0 <= i < |metrics| ==> 0 <= metrics[i].rawScore <= METRIC_SCORE_MAX
  {
    if rows == [] then []
    else
      var front := Assessed(rows[..|rows| - 1], catalog);
      var last := rows[|rows| - 1];
      if TakesPart(last, catalog) then front + [Metric(last.code, catalog[last.code], last.value.value)] else front
  }

  /** The raw scores of one domain. */
  function DomainValues(metrics: seq<Metric>, d: Domain): (values: seq<int>)
    requires forall i :: 0 <= i < |metrics| ==> 0 <= metrics[i].rawScore <= METRIC_SCORE_MAX
    ensures forall i :: 0 <= i < |values| ==> 0 <= values[i] <= METRIC_SCORE_MAX
  {
    if metrics == [] then []
    else
      var front := DomainValues(metrics[..|metrics| - 1], d);
      var last := metrics[|metrics| - 1];
      if last.domain == d then front + [last.rawScore] else front
  }

  function Sum(values: seq<int>): int {
    if values == [] then 0 else Sum(values[..|values| - 1]) + values[|values| - 1]
  }

  /** The unrounded domain score on the 0..20 scale. */
  function ExactDomainScore(values: seq<int>): real
    requires values != []
  {
    Sum(values) as real / |values| as real * 4.0
  }

  function DomainScoreOf(values: seq<int>): Option<real> {
    if values == [] then None else Some(Round2(ExactDomainScore(values)))
  }

  function DomainScores(metrics: seq<Metric>, domains: seq<Domain>): seq<DomainScore>
    requires forall i :: 0 <= i < |metrics| ==> 0 <= metrics[i].rawScore <= METRIC_SCORE_MAX
  {
    if domains == [] then []
    else
      var d := domains[|domains| - 1];
      var values := DomainValues(metrics, d);
      DomainScores(metrics, domains[..|domains| - 1])
        + [DomainScore(d, DomainWeight(d), DomainScoreOf(values), |values|)]
  }

  /** The scored domains with their weights. */
  function Scored(scores: seq<DomainScore>): seq<Weighted> {
    if scores == [] then []
    else
      var front := Scored(scores[..|scores| - 1]);
      var last := scores[|scores| - 1];
      if last.score.Some? then front + [Weighted(last.score.value, last.weight as real)] else front
  }

  function OverallScore(scores: seq<DomainScore>): Option<real> {
    var items := Scored(scores);
    if WeightSum(items) > 0.0 then Some(Round2(Mean(items))) else None
  }

  /** The completion threshold: at least one indicator, at most the whole catalog. */
  function RequiredMetrics(catalogSize: nat, settingPercent: int): nat {
    var percent := if settingPercent < 1 then 1 else if settingPercent > 100 then 100 else settingPercent;
    (catalogSize * percent + 99) / 100
  }

  function CompletionPercent(completed: nat, catalogSize: nat): real {
    if catalogSize == 0 then 0.0 else Round2(completed as real / catalogSize as real * 100.0)
  }

  function EvaluationSummary(rows: seq<MetricRow>, catalog: map<string, Domain>, settingPercent: int): Summary {
    var metrics := Assessed(rows, catalog);
    var scores := DomainScores(metrics, DOMAINS);
    var required := RequiredMetrics(|catalog|, settingPercent);
    var overall := OverallScore(scores);
    var isFinal := |metrics| >= required;
    Summary(metrics, scores, overall, required, CompletionPercent(|metrics|, |catalog|), isFinal,
            if isFinal && overall.Some? then Some(PerformanceLevel(overall.value)) else None)
  }

  predicate Groups(grouped: map<Domain, seq<int>>, metrics: seq<Metric>)
    requires forall i :: 0 <= i < |metrics| ==> 0 <= metrics[i].rawScore <= METRIC_SCORE_MAX
  {
    forall d :: (if d in grouped then grouped[d] else []) == DomainValues(metrics, d)
  }

  lemma GroupsStep(grouped: map<Domain, seq<int>>, metrics: seq<Metric>, m: Metric)
    requires forall i :: 0 <= i < |metrics| ==> 0 <= metrics[i].rawScore <= METRIC_SCORE_MAX
    requires 0 <= m.rawScore <= METRIC_SCORE_MAX && Groups(grouped, metrics)
    ensures Groups(grouped[m.domain := (if m.domain in grouped then grouped[m.domain] else []) + [m.rawScore]],
                   metrics + [m])
  {
    assert (metrics + [m])[..|metrics|] == metrics;
  }

  /** The grouping loop over the stored indicators. */
  method GroupMetrics(rows: seq<MetricRow>, catalog: map<string, Domain>)
    returns (grouped: map<Domain, seq<int>>, metrics: seq<Metric>)
    ensures metrics == Assessed(rows, catalog) && Groups(grouped, metrics)
  {
    grouped, metrics := map[], [];
    for i := 0 to |rows|
      invariant metrics == Assessed(rows[..i], catalog) && Groups(grouped, metrics)
    {
      assert rows[..i + 1][..i] == rows[..i];
      var row := rows[i];
      if row.code in catalog && row.value.Some? && 0 <= row.value.value <= METRIC_SCORE_MAX {
        var m := Metric(row.code, catalog[row.code], row.value.value);
        GroupsStep(grouped, metrics, m);
        grouped := grouped[m.domain := (if m.domain in grouped then grouped[m.domain] else []) + [m.rawScore]];
        metrics := metrics + [m];
      }
    }
    assert rows[..|rows|] == rows;
  }

  /** The loop over the domain definitions. */
  method ScoreDomains(grouped: map<Domain, seq<int>>, domains: seq<Domain>, ghost metrics: seq<Metric>)
    returns (scores: seq<DomainScore>)
    requires forall i :: 0 <= i < |metrics| ==> 0 <= metrics[i].rawScore <= METRIC_SCORE_MAX
    requires Groups(grouped, metrics)
    ensures scores == DomainScores(metrics, domains)
  {
    scores := [];
    for i := 0 to |domains|
      invariant scores == DomainScores(metrics, domains[..i])
    {
      assert domains[..i + 1][..i] == domains[..i];
      var d := domains[i];
      var values := if d in grouped then grouped[d] else [];
      assert values == DomainValues(metrics, d);
      scores := scores + [DomainScore(d, DomainWeight(d), DomainScoreOf(values), |values|)];
    }
    assert domains[..|domains|] == domains;
  }

  /** The computation itself: group the values by domain, then score every domain. */
  method SummarizeEvaluation(rows: seq<MetricRow>, catalog: map<string, Domain>, settingPercent: int)
    returns (summary: Summary)
    ensures summary == EvaluationSummary(rows, catalog, settingPercent)
  {
    var grouped, metrics := GroupMetrics(rows, catalog);
    var scores := ScoreDomains(grouped, DOMAINS, metrics);
    var required := RequiredMetrics(|catalog|, settingPercent);
    var isFinal := |metrics| >= required;
    var overall := OverallScore(scores);
    var completion := CompletionPercent(|metrics|, |catalog|);
    summary := Summary(metrics, scores, overall, required, completion, isFinal,
                       if isFinal && overall.Some? then Some(PerformanceLevel(overall.value)) else None);
  }

  // ---------------------------------------------------------------- properties of one evaluation

  lemma {:induction false} SumInRange(values: seq<int>)
    requires forall i :: 0 <= i < |values| ==> 0 <= values[i] <= METRIC_SCORE_MAX
    ensures 0 <= Sum(values) <= METRIC_SCORE_MAX * |values|
  {
    if values != [] {
      SumInRange(values[..|values| - 1]);
    }
  }

  lemma ExactDomainScoreInRange(values: seq<int>)
    requires values != [] && forall i :: 0 <= i < |values| ==> 0 <= values[i] <= METRIC_SCORE_MAX
    ensures 0.0 <= ExactDomainScore(values) <= 20.0
  {
    SumInRange(values);
    MeanBetween(Sum(values) as real, |values| as real, 0.0, 5.0);
  }

  lemma ScaleGrid()
    ensures Power10(2) == 100
    ensures OnGrid(0.0, 2) && OnGrid(20.0, 2)
  {
    assert Power10(1) == 10;
    assert 0.0 == Multiple(0, 100.0);
    assert 20.0 == Multiple(2000, 100.0);
  }

  lemma Round2InRange(x: real)
    requires 0.0 <= x <= 20.0
    ensures 0.0 <= Round2(x) <= 20.0
  {
    ScaleGrid();
    QuantizeMonotone(0.0, x, HalfEven, 2);
    QuantizeMonotone(x, 20.0, HalfEven, 2);
    QuantizeFixesExactlyTheGrid(0.0, HalfEven, 2);
    QuantizeFixesExactlyTheGrid(20.0, HalfEven, 2);
  }

  lemma ScoredStep(metrics: seq<Metric>, domains: seq<Domain>)
    requires forall i :: 0 <= i < |metrics| ==> 0 <= metrics[i].rawScore <= METRIC_SCORE_MAX
    requires domains != []
    ensures var front, d := domains[..|domains| - 1], domains[|domains| - 1];
            var score := DomainScoreOf(DomainValues(metrics, d));
            Scored(DomainScores(metrics, domains))
              == Scored(DomainScores(metrics, front))
                 + (if score.Some? then [Weighted(score.value, DomainWeight(d) as real)] else [])
  {
    var scores := DomainScores(metrics, domains);
    assert scores[..|scores| - 1] == DomainScores(metrics, domains[..|domains| - 1]);
  }

  lemma {:induction false} ScoredWithin(metrics: seq<Metric>, domains: seq<Domain>)
    requires forall i :: 0 <= i < |metrics| ==> 0 <= metrics[i].rawScore <= METRIC_SCORE_MAX
    ensures var items := Scored(DomainScores(metrics, domains)); PositiveWeights(items) && Within(items, 0.0, 20.0)
  {
    if domains != [] {
      var n := |domains| - 1;
      ScoredWithin(metrics, domains[..n]);
      ScoredStep(metrics, domains);
      ExtraScore(metrics, domains[n]);
    }
  }

  lemma {:induction false} LastScored(metrics: seq<Metric>, domains: seq<Domain>)
    requires forall i :: 0 <= i < |metrics| ==> 0 <= metrics[i].rawScore <= METRIC_SCORE_MAX
    requires domains != []
    ensures var n := |domains| - 1;
            (Scored(DomainScores(metrics, domains)) == [])
            == (Scored(DomainScores(metrics, domains[..n])) == [] && DomainValues(metrics, domains[n]) == [])
  {
    var n := |domains| - 1;
    ScoredStep(metrics, domains);
    ExtraScore(metrics, domains[n]);
  }

  lemma {:induction false} ScoredWhenValues(metrics: seq<Metric>, domains: seq<Domain>)
    requires forall i :: 0 <= i < |metrics| ==> 0 <= metrics[i].rawScore <= METRIC_SCORE_MAX
    ensures Scored(DomainScores(metrics, domains)) == []
            <==> forall i :: 0 <= i < |domains| ==> DomainValues(metrics, domains[i]) == []
  {
    if domains != [] {
      var n := |domains| - 1;
      ScoredWhenValues(metrics, domains[..n]);
      LastScored(metrics, domains);
    }
  }

  /** The scored domains have positive weights and scores on the 0..20 scale, and there is
      one for every domain that has values. */
  lemma ScoredDomains(metrics: seq<Metric>, domains: seq<Domain>)
    requires forall i :: 0 <= i < |metrics| ==> 0 <= metrics[i].rawScore <= METRIC_SCORE_MAX
    ensures var items := Scored(DomainScores(metrics, domains));
            && PositiveWeights(items) && Within(items, 0.0, 20.0)
            && (items == [] <==> forall i :: 0 <= i < |domains| ==> DomainValues(metrics, domains[i]) == [])
  {
    ScoredWithin(metrics, domains);
    ScoredWhenValues(metrics, domains);
  }

  lemma ExtraScore(metrics: seq<Metric>, d: Domain)
    requires forall i :: 0 <= i < |metrics| ==> 0 <= metrics[i].rawScore <= METRIC_SCORE_MAX
    ensures var values := DomainValues(metrics, d);
            var score := DomainScoreOf(values);
            var extra := if score.Some? then [Weighted(score.value, DomainWeight(d) as real)] else [];
            PositiveWeights(extra) && Within(extra, 0.0, 20.0) && (extra == [] <==> values == [])
  {
    DomainScoreInRange(DomainValues(metrics, d));
  }

  lemma DomainScoreInRange(values: seq<int>)
    requires forall i :: 0 <= i < |values| ==> 0 <= values[i] <= METRIC_SCORE_MAX
    ensures var score := DomainScoreOf(values);
            (score.Some? <==> values != []) && (score.Some? ==> 0.0 <= score.value <= 20.0)
  {
    if values != [] {
      ExactDomainScoreInRange(values);
      Round2InRange(ExactDomainScore(values));
    }
  }

  lemma SomeDomainHasValues(metrics: seq<Metric>)
    requires forall i :: 0 <= i < |metrics| ==> 0 <= metrics[i].rawScore <= METRIC_SCORE_MAX
    ensures metrics == [] <==> forall i :: 0 <= i < |DOMAINS| ==> DomainValues(metrics, DOMAINS[i]) == []
  {
    if metrics != [] {
      var d := metrics[|metrics| - 1].domain;
      assert DomainValues(metrics, d) != [];
      EveryDomainIsListed(d);
    }
  }

  lemma EveryDomainIsListed(d: Domain)
    ensures d in DOMAINS
  {
    match d
    case EDU => assert DOMAINS[0] == d;
    case DEV => assert DOMAINS[1] == d;
    case CHR => assert DOMAINS[2] == d;
    case DIS => assert DOMAINS[3] == d;
    case CUL => assert DOMAINS[4] == d;
    case RES => assert DOMAINS[5] == d;
    case SPT => assert DOMAINS[6] == d;
    case ART => assert DOMAINS[7] == d;
    case PER => assert DOMAINS[8] == d;
  }

  /** The overall score is present exactly when some indicator takes part, and is then on
      the 0..20 scale. */
  lemma OverallScoreInRange(rows: seq<MetricRow>, catalog: map<string, Domain>, settingPercent: int)
    ensures var s := EvaluationSummary(rows, catalog, settingPercent);
            && (s.overallScore.Some? <==> s.metrics != [])
            && (s.overallScore.Some? ==> 0.0 <= s.overallScore.value <= 20.0)
  {
    var metrics := Assessed(rows, catalog);
    ScoredDomains(metrics, DOMAINS);
    SomeDomainHasValues(metrics);
    OverallOfScores(DomainScores(metrics, DOMAINS));
  }

  lemma OverallOfScores(scores: seq<DomainScore>)
    requires PositiveWeights(Scored(scores)) && Within(Scored(scores), 0.0, 20.0)
    ensures var overall := OverallScore(scores);
            && (overall.Some? <==> Scored(scores) != [])
            && (overall.Some? ==> 0.0 <= overall.value <= 20.0)
  {
    var items := Scored(scores);
    SumsAreBounded(items, 0.0, 20.0);
    if items != [] {
      MeanBetween(ProductSum(items), WeightSum(items), 0.0, 20.0);
      Round2InRange(Mean(items));
    }
  }

  /** Whatever the configured threshold, a final evaluation of a non-empty catalog has an
      overall score and a performance level. */
  lemma FinalEvaluationHasScore(rows: seq<MetricRow>, catalog: map<string, Domain>, settingPercent: int)
    requires |catalog| > 0
    ensures var s := EvaluationSummary(rows, catalog, settingPercent);
            && 1 <= s.requiredMetrics <= |catalog|
            && (s.isFinal ==> s.overallScore.Some? && s.level.Some?)
            && (!s.isFinal ==> s.level == None)
  {
    OverallScoreInRange(rows, catalog, settingPercent);
    RequiredIsPositive(|catalog|, settingPercent);
  }

  lemma RequiredIsPositive(catalogSize: nat, settingPercent: int)
    requires catalogSize > 0
    ensures 1 <= RequiredMetrics(catalogSize, settingPercent) <= catalogSize
  {
    var percent := if settingPercent < 1 then 1 else if settingPercent > 100 then 100 else settingPercent;
    assert catalogSize * 1 <= catalogSize * percent <= catalogSize * 100;
  }

  /** An evaluation is final exactly when the share of its indicators reaches the configured
      percentage, cut to 1..100. */
  lemma FinalAtThreshold(rows: seq<MetricRow>, catalog: map<string, Domain>, settingPercent: int)
    ensures var s := EvaluationSummary(rows, catalog, settingPercent);
            var percent := if settingPercent < 1 then 1 else if settingPercent > 100 then 100 else settingPercent;
            s.isFinal <==> |s.metrics| * 100 >= |catalog| * percent
  {
    var percent := if settingPercent < 1 then 1 else if settingPercent > 100 then 100 else settingPercent;
    CeilingOfHundredths(|catalog| * percent, |Assessed(rows, catalog)|);
  }

  lemma CeilingOfHundredths(hundredths: nat, n: nat)
    ensures n >= (hundredths + 99) / 100 <==> n * 100 >= hundredths
  {
  }

  predicate DistinctCodes(rows: seq<MetricRow>) {
    forall i, j :: 0 <= i < j < |rows| ==> rows[i].code != rows[j].code
  }

  function CodesOf(metrics: seq<Metric>): set<string> {
    set i | 0 <= i < |metrics| :: metrics[i].code
  }

  function RowCodes(rows: seq<MetricRow>): set<string> {
    set i | 0 <= i < |rows| :: rows[i].code
  }

  lemma CodesOfMore(metrics: seq<Metric>, m: Metric)
    ensures CodesOf(metrics + [m]) == CodesOf(metrics) + {m.code}
  {
    var longer := metrics + [m];
    assert forall i :: 0 <= i < |metrics| ==> longer[i] == metrics[i];
    assert longer[|metrics|] == m;
  }

  lemma LastCodeIsNew(rows: seq<MetricRow>)
    requires rows != [] && DistinctCodes(rows)
    ensures var n := |rows| - 1;
            rows[n].code !in RowCodes(rows[..n]) && RowCodes(rows[..n]) + {rows[n].code} <= RowCodes(rows)
  {
    var n := |rows| - 1;
    assert forall i :: 0 <= i < n ==> rows[..n][i] == rows[i];
  }

  /** With distinct codes no more indicators take part than the catalog has. */
  lemma {:induction false} AssessedAreCatalogued(rows: seq<MetricRow>, catalog: map<string, Domain>)
    requires DistinctCodes(rows)
    ensures var metrics := Assessed(rows, catalog);
            |CodesOf(metrics)| == |metrics| && CodesOf(metrics) <= catalog.Keys && CodesOf(metrics) <= RowCodes(rows)
  {
    if rows != [] {
      var front, last := rows[..|rows| - 1], rows[|rows| - 1];
      AssessedAreCatalogued(front, catalog);
      LastCodeIsNew(rows);
      if TakesPart(last, catalog) {
        CodesOfMore(Assessed(front, catalog), Metric(last.code, catalog[last.code], last.value.value));
      }
    }
  }

  /** The completion percentage lies in 0..100 and is 100 for a complete evaluation. */
  lemma CompletionInRange(rows: seq<MetricRow>, catalog: map<string, Domain>, settingPercent: int)
    requires DistinctCodes(rows) && |catalog| > 0
    ensures var s := EvaluationSummary(rows, catalog, settingPercent);
            && |s.metrics| <= |catalog| && 0.0 <= s.completionPercent <= 100.0
            && (|s.metrics| == |catalog| ==> s.completionPercent == 100.0 && s.isFinal)
  {
    var n, size := |Assessed(rows, catalog)|, |catalog|;
    AssessedAreCatalogued(rows, catalog);
    SubsetSize(CodesOf(Assessed(rows, catalog)), catalog.Keys);
    assert |catalog.Keys| == |catalog|;
    FinalAtThreshold(rows, catalog, settingPercent);
    RequiredIsPositive(size, settingPercent);
    ShareInPercent(n, size);
  }

  lemma ShareInPercent(n: nat, size: nat)
    requires n <= size && size > 0
    ensures 0.0 <= CompletionPercent(n, size) <= 100.0
    ensures n == size ==> CompletionPercent(n, size) == 100.0
  {
    var share := n as real / size as real;
    DivideKeepsOrder(0.0, n as real, size as real);
    DivideKeepsOrder(n as real, size as real, size as real);
    DivideUndoesMultiply(1.0, size as real);
    ScaleGrid();
    assert 0.0 == Multiple(0, 100.0) && 100.0 == Multiple(10000, 100.0);
    QuantizeFixesExactlyTheGrid(0.0, HalfEven, 2);
    QuantizeFixesExactlyTheGrid(100.0, HalfEven, 2);
    QuantizeMonotone(0.0, share * 100.0, HalfEven, 2);
    QuantizeMonotone(share * 100.0, 100.0, HalfEven, 2);
  }

  // ---------------------------------------------------------------- one student

  /** One stored month with the catalog of its framework version. */
  datatype MonthlyEvaluation = MonthlyEvaluation(monthNo: nat, rows: seq<MetricRow>, catalog: map<string, Domain>)

  datatype StudentSummary = StudentSummary(isFinal: bool, overallScore: Option<real>, level: Option<Level>)

  function MonthSummaries(months: seq<MonthlyEvaluation>, settingPercent: int): (r: seq<Summary>)
    ensures |r| == |months|
    ensures forall i :: 0 <= i < |months| ==> r[i] == EvaluationSummary(months[i].rows, months[i].catalog, settingPercent)
  {
    seq(|months|, i requires 0 <= i < |months| =>
      EvaluationSummary(months[i].rows, months[i].catalog, settingPercent))
  }

  /** The overall scores that are averaged: of the final months, or of all months. */
  function PooledScores(months: seq<Summary>, finalOnly: bool): seq<Weighted> {
    if months == [] then []
    else
      var front := PooledScores(months[..|months| - 1], finalOnly);
      var last := months[|months| - 1];
      if (last.isFinal || !finalOnly) && last.overallScore.Some?
      then front + [Weighted(last.overallScore.value, 1.0)] else front
  }

  /** The summary of a student from the months in order; the last month decides whether it
      is final, and then only final months count. */
  function SummarizeStudent(months: seq<Summary>): StudentSummary {
    if months == [] then StudentSummary(false, None, None)
    else
      var isFinal := months[|months| - 1].isFinal;
      var items := PooledScores(months, isFinal);
      var overall := if WeightSum(items) > 0.0 then Some(Round2(Mean(items))) else None;
      StudentSummary(isFinal, overall,
                     if isFinal && overall.Some? then Some(PerformanceLevel(overall.value)) else None)
  }

  predicate Sound(months: seq<Summary>) {
    forall i :: 0 <= i < |months| ==>
      && (months[i].isFinal ==> months[i].overallScore.Some?)
      && (months[i].overallScore.Some? ==> 0.0 <= months[i].overallScore.value <= 20.0)
  }

  lemma MonthsAreSound(months: seq<MonthlyEvaluation>, settingPercent: int)
    requires forall i :: 0 <= i < |months| ==> |months[i].catalog| > 0
    ensures Sound(MonthSummaries(months, settingPercent))
  {
    forall i | 0 <= i < |months|
      ensures var s := EvaluationSummary(months[i].rows, months[i].catalog, settingPercent);
              && (s.isFinal ==> s.overallScore.Some?)
              && (s.overallScore.Some? ==> 0.0 <= s.overallScore.value <= 20.0)
    {
      OverallScoreInRange(months[i].rows, months[i].catalog, settingPercent);
      FinalEvaluationHasScore(months[i].rows, months[i].catalog, settingPercent);
    }
  }

  lemma {:induction false} PooledScoresInRange(months: seq<Summary>, finalOnly: bool)
    requires Sound(months)
    ensures var items := PooledScores(months, finalOnly);
            && PositiveWeights(items) && Within(items, 0.0, 20.0)
            && (months != [] && months[|months| - 1].isFinal ==> items != [])
  {
    if months != [] {
      PooledScoresInRange(months[..|months| - 1], finalOnly);
    }
  }

  /** A final student always has a score on the 0..20 scale and a level; nobody else has a
      level. */
  lemma FinalStudentHasScore(months: seq<MonthlyEvaluation>, settingPercent: int)
    requires forall i :: 0 <= i < |months| ==> |months[i].catalog| > 0
    ensures var s := SummarizeStudent(MonthSummaries(months, settingPercent));
            && (s.isFinal ==> s.overallScore.Some?)
            && (s.isFinal <==> s.level.Some?)
            && (s.overallScore.Some? ==> 0.0 <= s.overallScore.value <= 20.0)
  {
    MonthsAreSound(months, settingPercent);
    SoundStudentHasScore(MonthSummaries(months, settingPercent));
  }

  lemma SoundStudentHasScore(months: seq<Summary>)
    requires Sound(months)
    ensures var s := SummarizeStudent(months);
            && (s.isFinal ==> s.overallScore.Some?)
            && (s.isFinal <==> s.level.Some?)
            && (s.overallScore.Some? ==> 0.0 <= s.overallScore.value <= 20.0)
  {
    if months != [] {
      var isFinal := months[|months| - 1].isFinal;
      var items := PooledScores(months, isFinal);
      PooledScoresInRange(months, isFinal);
      SumsAreBounded(items, 0.0, 20.0);
      if items != [] {
        MeanBetween(ProductSum(items), WeightSum(items), 0.0, 20.0);
        Round2InRange(Mean(items));
      }
    }
  }

  // ---------------------------------------------------------------- ranking

  datatype Candidate = Candidate(enrollment: nat, summary: StudentSummary)

  predicate Rankable(s: StudentSummary) { s.isFinal && s.overallScore.Some? }

  predicate DistinctEnrollments(candidates: seq<Candidate>) {
    forall i, j :: 0 <= i < j < |candidates| ==> candidates[i].enrollment != candidates[j].enrollment
  }

  /** The candidates that take part in the ranking. */
  function RankedEntries(candidates: seq<Candidate>): seq<R.Entry<nat>> {
    if candidates == [] then []
    else
      var front := RankedEntries(candidates[..|candidates| - 1]);
      var last := candidates[|candidates| - 1];
      if Rankable(last.summary) then front + [R.Entry(last.enrollment, last.summary.overallScore.value)] else front
  }

  predicate IsEntryOf(e: R.Entry<nat>, c: Candidate) {
    Rankable(c.summary) && e.key == c.enrollment && e.score == c.summary.overallScore.value
  }

  /** Every entry comes from a rankable candidate, and every rankable candidate has one. */
  lemma {:induction false} EntrySource(candidates: seq<Candidate>, k: nat) returns (i: nat)
    requires k < |RankedEntries(candidates)|
    ensures i < |candidates| && IsEntryOf(RankedEntries(candidates)[k], candidates[i])
  {
    var n := |candidates| - 1;
    if k < |RankedEntries(candidates[..n])| {
      i := EntrySource(candidates[..n], k);
    } else {
      i := n;
    }
  }

  lemma {:induction false} EntryTarget(candidates: seq<Candidate>, i: nat) returns (k: nat)
    requires i < |candidates| && Rankable(candidates[i].summary)
    ensures k < |RankedEntries(candidates)| && IsEntryOf(RankedEntries(candidates)[k], candidates[i])
  {
    var n := |candidates| - 1;
    if i < n {
      k := EntryTarget(candidates[..n], i);
    } else {
      k := |RankedEntries(candidates[..n])|;
    }
  }

  lemma RankedEntriesAreDistinct(candidates: seq<Candidate>)
    requires DistinctEnrollments(candidates)
    ensures R.DistinctKeys(RankedEntries(candidates))
  {
    var entries := RankedEntries(candidates);
    forall a, b | 0 <= a < b < |entries| ensures entries[a].key != entries[b].key {
      EntriesDiffer(candidates, a, b);
    }
  }

  lemma {:induction false} EntriesDiffer(candidates: seq<Candidate>, a: nat, b: nat)
    requires DistinctEnrollments(candidates)
    requires a < b < |RankedEntries(candidates)|
    ensures RankedEntries(candidates)[a].key != RankedEntries(candidates)[b].key
  {
    var n := |candidates| - 1;
    if b < |RankedEntries(candidates[..n])| {
      EntriesDiffer(candidates[..n], a, b);
    } else {
      var i := EntrySource(candidates[..n], a);
    }
  }

  /** The rank a summary has among candidates: the dense rank of its score. */
  ghost function RankAmong(candidates: seq<Candidate>, s: StudentSummary): Option<nat> {
    if Rankable(s) then Some(R.DenseRank(R.Scores(RankedEntries(candidates)), s.overallScore.value)) else None
  }

  /** Reading the table of ranks gives every student the rank defined above. */
  lemma LookupRank(students: seq<Candidate>, i: nat, table: map<nat, nat>)
    requires DistinctEnrollments(students) && i < |students|
    requires R.IsRankTable(RankedEntries(students), table)
    ensures Lookup(table, students[i].enrollment) == RankAmong(students, students[i].summary)
  {
    if Rankable(students[i].summary) {
      var k := EntryTarget(students, i);
    } else {
      UnrankedHasNoEntry(students, i);
    }
  }

  lemma UnrankedHasNoEntry(students: seq<Candidate>, i: nat)
    requires DistinctEnrollments(students) && i < |students| && !Rankable(students[i].summary)
    ensures forall k :: 0 <= k < |RankedEntries(students)| ==> RankedEntries(students)[k].key != students[i].enrollment
  {
    forall k | 0 <= k < |RankedEntries(students)| ensures RankedEntries(students)[k].key != students[i].enrollment {
      var j := EntrySource(students, k);
    }
  }

  function Lookup(table: map<nat, nat>, key: nat): Option<nat> {
    if key in table then Some(table[key]) else None
  }

  /** The cohort ranking: a table of ranks is filled and then read for every student. */
  method CohortRanks(students: seq<Candidate>) returns (ranks: seq<Option<nat>>, rankedCount: nat)
    requires DistinctEnrollments(students)
    ensures |ranks| == |students|
    ensures forall i :: 0 <= i < |students| ==> ranks[i] == RankAmong(students, students[i].summary)
    ensures rankedCount == |RankedEntries(students)|
  {
    var entries := RankedEntries(students);
    RankedEntriesAreDistinct(students);
    var rankByEnrollment := R.RankTable(entries);
    ranks := ReadRanks(students, rankByEnrollment);
    forall i | 0 <= i < |students| ensures ranks[i] == RankAmong(students, students[i].summary) {
      LookupRank(students, i, rankByEnrollment);
    }
    rankedCount := |entries|;
  }

  method ReadRanks(students: seq<Candidate>, table: map<nat, nat>) returns (ranks: seq<Option<nat>>)
    ensures |ranks| == |students|
    ensures forall i :: 0 <= i < |students| ==> ranks[i] == Lookup(table, students[i].enrollment)
  {
    ranks := [];
    for i := 0 to |students|
      invariant |ranks| == i
      invariant forall j :: 0 <= j < i ==> ranks[j] == Lookup(table, students[j].enrollment)
    {
      ranks := ranks + [Lookup(table, students[i].enrollment)];
    }
  }

  /** The ranking of a single student among the candidates of the school or class. */
  method StudentRank(enrollment: nat, own: StudentSummary, candidates: seq<Candidate>)
    returns (rank: Option<nat>, rankedCount: nat)
    requires DistinctEnrollments(candidates)
    requires forall i :: 0 <= i < |candidates| && candidates[i].enrollment == enrollment ==> candidates[i].summary == own
    ensures (exists i :: 0 <= i < |candidates| && candidates[i].enrollment == enrollment)
        ==> rank == RankAmong(candidates, own)
    ensures (forall i :: 0 <= i < |candidates| ==> candidates[i].enrollment != enrollment) ==> rank == None
    ensures rankedCount == if Rankable(own) then |RankedEntries(candidates)| else 0
  {
    if !Rankable(own) {
      return None, 0;
    }
    var entries := RankedEntries(candidates);
    RankedEntriesAreDistinct(candidates);
    var found := R.RankOfKey(entries, enrollment);
    rank := if found.Some? then Some(found.value) else None;
    rankedCount := |entries|;
    forall i | 0 <= i < |candidates| && candidates[i].enrollment == enrollment
      ensures rank == RankAmong(candidates, own)
    {
      var k := EntryTarget(candidates, i);
    }
    forall k | 0 <= k < |entries| ensures exists i :: 0 <= i < |candidates| && candidates[i].enrollment == entries[k].key {
      var i := EntrySource(candidates, k);
    }
  }

  /** Both rankings agree: the rank depends on who takes part, not on the order in which
      the two queries list them or break ties. */
  lemma RankingsAgree(cohort: seq<Candidate>, candidates: seq<Candidate>, s: StudentSummary)
    requires forall c :: c in cohort <==> c in candidates
    ensures RankAmong(cohort, s) == RankAmong(candidates, s)
  {
    SameScores(cohort, candidates);
    SameScores(candidates, cohort);
    assert R.Scores(RankedEntries(cohort)) == R.Scores(RankedEntries(candidates));
  }

  function RankableEnrollments(candidates: seq<Candidate>): set<nat> {
    set i | 0 <= i < |candidates| && Rankable(candidates[i].summary) :: candidates[i].enrollment
  }

  lemma {:induction false} EntriesAreCounted(candidates: seq<Candidate>)
    requires DistinctEnrollments(candidates)
    ensures |RankedEntries(candidates)| == |RankableEnrollments(candidates)|
  {
    if candidates != [] {
      var n := |candidates| - 1;
      var front, last := candidates[..n], candidates[n];
      EntriesAreCounted(front);
      assert forall i :: 0 <= i < n ==> front[i] == candidates[i];
      if Rankable(last.summary) {
        assert RankableEnrollments(candidates) == RankableEnrollments(front) + {last.enrollment};
        assert last.enrollment !in RankableEnrollments(front);
      } else {
        assert RankableEnrollments(candidates) == RankableEnrollments(front);
      }
    }
  }

  lemma SameRankable(a: seq<Candidate>, b: seq<Candidate>)
    requires forall c :: c in a ==> c in b
    ensures RankableEnrollments(a) <= RankableEnrollments(b)
  {
    forall e | e in RankableEnrollments(a) ensures e in RankableEnrollments(b) {
      var i :| 0 <= i < |a| && Rankable(a[i].summary) && a[i].enrollment == e;
      assert a[i] in b;
      var j :| 0 <= j < |b| && b[j] == a[i];
    }
  }

  /** The scores above a student's among all candidates that some student of the cohort has. */
  ghost predicate SeesHigherScores(cohort: seq<Candidate>, candidates: seq<Candidate>, s: StudentSummary)
    requires Rankable(s)
  {
    R.Higher(R.Scores(RankedEntries(candidates)), s.overallScore.value) <= R.Scores(RankedEntries(cohort))
  }

  /** In a part of the candidates a rank can only be better, and it is the same exactly when
      every higher score of the candidates occurs in the part. */
  lemma PartialCohortRanks(cohort: seq<Candidate>, candidates: seq<Candidate>, s: StudentSummary)
    requires (forall c :: c in cohort ==> c in candidates) && Rankable(s)
    ensures var shown, own := RankAmong(cohort, s).value, RankAmong(candidates, s).value;
            shown <= own && (shown == own <==> SeesHigherScores(cohort, candidates, s))
  {
    var score := s.overallScore.value;
    var part, all := R.Higher(R.Scores(RankedEntries(cohort)), score), R.Higher(R.Scores(RankedEntries(candidates)), score);
    SameScores(cohort, candidates);
    assert part <= all;
    SubsetSize(part, all);
    if |part| == |all| {
      SameSizeSubset(part, all);
    }
    if SeesHigherScores(cohort, candidates, s) {
      assert part == all;
    }
  }

  lemma SameSizeSubset(a: set<real>, b: set<real>)
    requires a <= b && |a| == |b|
    ensures a == b
  {
    assert b == a + (b - a);
  }

  /** The cohort page ranks the classes its reader may see, the page of a student the whole
      school or class. */
  method RankBothWays(cohort: seq<Candidate>, candidates: seq<Candidate>, i: nat)
    returns (onCohortPage: Option<nat>, onOwnPage: Option<nat>, cohortCount: nat, ownCount: nat)
    requires DistinctEnrollments(cohort) && DistinctEnrollments(candidates)
    requires (forall c :: c in cohort ==> c in candidates) && i < |cohort|
    ensures onCohortPage.Some? == onOwnPage.Some? == Rankable(cohort[i].summary)
    ensures Rankable(cohort[i].summary) ==>
              && onCohortPage.value <= onOwnPage.value && cohortCount <= ownCount
              && (onCohortPage == onOwnPage <==> SeesHigherScores(cohort, candidates, cohort[i].summary))
    ensures (forall c :: c in candidates ==> c in cohort) ==>
              onCohortPage == onOwnPage && (onOwnPage.Some? ==> ownCount == cohortCount)
  {
    var own := cohort[i];
    assert own in candidates;
    var k :| 0 <= k < |candidates| && candidates[k] == own;
    var ranks;
    ranks, cohortCount := CohortRanks(cohort);
    onCohortPage := ranks[i];
    onOwnPage, ownCount := StudentRank(own.enrollment, own.summary, candidates);
    if Rankable(own.summary) {
      PartialCohortRanks(cohort, candidates, own.summary);
      EntriesAreCounted(cohort);
      EntriesAreCounted(candidates);
      SameRankable(cohort, candidates);
      SubsetSize(RankableEnrollments(cohort), RankableEnrollments(candidates));
    }
    if forall c :: c in candidates ==> c in cohort {
      RankingsAgree(cohort, candidates, own.summary);
      EntriesAreCounted(cohort);
      EntriesAreCounted(candidates);
      SameRankable(cohort, candidates);
      SameRankable(candidates, cohort);
      assert RankableEnrollments(cohort) == RankableEnrollments(candidates);
    }
  }

  /** A teacher who sees only the second class reads rank 1 where the school has rank 2. */
  lemma PartialCohortDiffers(best: Candidate, second: Candidate)
    requires Rankable(best.summary) && Rankable(second.summary)
    requires best.summary.overallScore.value > second.summary.overallScore.value
    ensures RankAmong([second], second.summary) == Some(1)
    ensures RankAmong([best, second], second.summary) == Some(2)
  {
    var b, s := best.summary.overallScore.value, second.summary.overallScore.value;
    assert [second][..0] == [] && [best, second][..1] == [best] && [best][..0] == [];
    assert RankedEntries([second]) == [R.Entry(second.enrollment, s)];
    assert RankedEntries([best, second]) == [R.Entry(best.enrollment, b), R.Entry(second.enrollment, s)];
    assert R.Entry(best.enrollment, b) in RankedEntries([best, second]);
    assert R.Higher(R.Scores(RankedEntries([second])), s) == {};
    assert R.Higher(R.Scores(RankedEntries([best, second])), s) == {b};
  }

  lemma SameScores(a: seq<Candidate>, b: seq<Candidate>)
    requires forall c :: c in a ==> c in b
    ensures R.Scores(RankedEntries(a)) <= R.Scores(RankedEntries(b))
  {
    forall x | x in R.Scores(RankedEntries(a)) ensures x in R.Scores(RankedEntries(b)) {
      var e :| e in RankedEntries(a) && e.score == x;
      var k :| 0 <= k < |RankedEntries(a)| && RankedEntries(a)[k] == e;
      var i := EntrySource(a, k);
      assert a[i] in b;
      var j :| 0 <= j < |b| && b[j] == a[i];
      var m := EntryTarget(b, j);
      assert RankedEntries(b)[m] in RankedEntries(b);
    }
  }

  // ---------------------------------------------------------------- distribution

  /** Rankable candidates of one level. */
  function CountLevel(candidates: seq<Candidate>, level: Level): nat {
    if candidates == [] then 0
    else
      var last := candidates[|candidates| - 1].summary;
      CountLevel(candidates[..|candidates| - 1], level)
        + (if Rankable(last) && last.level == Some(level) then 1 else 0)
  }

  /** The performance distribution adds up to the number of ranked students. */
  lemma {:induction false} DistributionIsComplete(candidates: seq<Candidate>)
    requires forall i :: 0 <= i < |candidates| && candidates[i].summary.isFinal ==> candidates[i].summary.level.Some?
    ensures CountLevel(candidates, Excellent) + CountLevel(candidates, Good)
          + CountLevel(candidates, Average) + CountLevel(candidates, Weak) == |RankedEntries(candidates)|
  {
    if candidates != [] {
      var n := |candidates| - 1;
      DistributionIsComplete(candidates[..n]);
      var last := candidates[n].summary;
      assert |RankedEntries(candidates)| == |RankedEntries(candidates[..n])| + (if Rankable(last) then 1 else 0);
      if Rankable(last) {
        assert last.level.Some?;
        match last.level.value {
          case Excellent => case Good => case Average => case Weak =>
        }
      }
    }
  }
}
