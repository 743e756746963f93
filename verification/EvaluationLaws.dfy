/** What the evaluation analytics compute, said of the stored rows: which indicators count,
    every mean as the value about which its parts balance, the levels, who is ranked, and
    how the report page reads a value in each of its units. */
module EvaluationLaws {
  import opened Options
  import opened Rounding
  import opened Averages
  import opened Evaluations
  import A = AnalyticalReport
  import R = Ranking

  // ---------------------------------------------------------------- indicators and domains

  /** The row scores an indicator of the domain from 0 to 5. */
  predicate CountsFor(row: MetricRow, catalog: map<string, Domain>, d: Domain) {
    && row.code in catalog && catalog[row.code] == d
    && row.value.Some? && 0 <= row.value.value && row.value.value <= 5
  }

  function Deviation(score: int, x: real): real { 4.0 * score as real - x }

  /** The deviations from `x` of the domain's scores, brought to the scale of 20. */
  function DomainBalance(rows: seq<MetricRow>, catalog: map<string, Domain>, d: Domain, x: real): real {
    if rows == [] then 0.0
    else
      var last := rows[|rows| - 1];
      DomainBalance(rows[..|rows| - 1], catalog, d, x)
      + if CountsFor(last, catalog, d) then Deviation(last.value.value, x) else 0.0
  }

  function CountFor(rows: seq<MetricRow>, catalog: map<string, Domain>, d: Domain): nat {
    if rows == [] then 0
    else CountFor(rows[..|rows| - 1], catalog, d) + if CountsFor(rows[|rows| - 1], catalog, d) then 1 else 0
  }

  lemma {:induction false} AssessedValues(rows: seq<MetricRow>, catalog: map<string, Domain>, d: Domain)
    ensures |DomainValues(Assessed(rows, catalog), d)| == CountFor(rows, catalog, d)
  {
    if rows != [] {
      AssessedValues(rows[..|rows| - 1], catalog, d);
      DomainValuesGrow(rows, catalog, d);
    }
  }

  lemma DomainValuesGrow(rows: seq<MetricRow>, catalog: map<string, Domain>, d: Domain)
    requires rows != []
    ensures var last := rows[|rows| - 1];
            DomainValues(Assessed(rows, catalog), d)
            == DomainValues(Assessed(rows[..|rows| - 1], catalog), d)
               + if CountsFor(last, catalog, d) then [last.value.value] else []
  {
    var last := rows[|rows| - 1];
    var front := Assessed(rows[..|rows| - 1], catalog);
    if TakesPart(last, catalog) {
      var all := front + [Metric(last.code, catalog[last.code], last.value.value)];
      assert all[..|all| - 1] == front;
    }
  }

  lemma SumOfMore(values: seq<int>, v: int)
    ensures Sum(values + [v]) == Sum(values) + v
  {
    assert (values + [v])[..|values|] == values;
  }

  function Deviations(values: seq<int>, x: real): real {
    4.0 * Sum(values) as real - x * |values| as real
  }

  lemma DeviationsGrow(values: seq<int>, v: int, x: real)
    ensures Deviations(values + [v], x) == Deviations(values, x) + Deviation(v, x)
  {
    SumOfMore(values, v);
    Distribute(x, |values| as real, 1.0);
  }

  lemma DeviationsAddUp(front: seq<int>, all: seq<int>, counts: bool, v: int, x: real, before: real)
    requires all == front + (if counts then [v] else []) && before == Deviations(front, x)
    ensures Deviations(all, x) == before + if counts then Deviation(v, x) else 0.0
  {
    if counts {
      DeviationsGrow(front, v, x);
    } else {
      assert all == front;
    }
  }

  lemma DomainBalanceGrows(rows: seq<MetricRow>, catalog: map<string, Domain>, d: Domain, x: real)
    requires rows != []
    ensures var last := rows[|rows| - 1];
            var score := if last.value.Some? then last.value.value else 0;
            DomainBalance(rows, catalog, d, x)
            == DomainBalance(rows[..|rows| - 1], catalog, d, x)
               + if CountsFor(last, catalog, d) then Deviation(score, x) else 0.0
  {
  }

  lemma {:induction false} DomainBalanceOfValues(rows: seq<MetricRow>, catalog: map<string, Domain>, d: Domain, x: real)
    ensures DomainBalance(rows, catalog, d, x) == Deviations(DomainValues(Assessed(rows, catalog), d), x)
  {
    if rows != [] {
      var front, last := rows[..|rows| - 1], rows[|rows| - 1];
      DomainBalanceOfValues(front, catalog, d, x);
      DomainValuesGrow(rows, catalog, d);
      DomainBalanceGrows(rows, catalog, d, x);
      DeviationsAddUp(DomainValues(Assessed(front, catalog), d), DomainValues(Assessed(rows, catalog), d),
                      CountsFor(last, catalog, d), if last.value.Some? then last.value.value else 0, x,
                      DomainBalance(front, catalog, d, x));
    }
  }

  lemma ExactScoreBalances(values: seq<int>)
    requires values != []
    ensures Deviations(values, ExactDomainScore(values)) == 0.0
  {
    ScaledMean(Sum(values) as real, |values| as real);
  }

  lemma ScaledMean(sum: real, n: real)
    requires n > 0.0
    ensures (sum / n * 4.0) * n == 4.0 * sum
  {
    DivideUndoesMultiply(sum, n);
    assert (sum / n * 4.0) * n == ((sum / n) * n) * 4.0;
  }

  function LineOf(metrics: seq<Metric>, d: Domain): DomainScore
    requires forall j :: 0 <= j < |metrics| ==> 0 <= metrics[j].rawScore <= METRIC_SCORE_MAX
  {
    DomainScore(d, DomainWeight(d), DomainScoreOf(DomainValues(metrics, d)), |DomainValues(metrics, d)|)
  }

  lemma DomainScoresGrow(metrics: seq<Metric>, domains: seq<Domain>)
    requires forall j :: 0 <= j < |metrics| ==> 0 <= metrics[j].rawScore <= METRIC_SCORE_MAX
    requires domains != []
    ensures var n := |domains| - 1;
            DomainScores(metrics, domains) == DomainScores(metrics, domains[..n]) + [LineOf(metrics, domains[n])]
  {
  }

  lemma {:induction false} DomainScoresAt(metrics: seq<Metric>, domains: seq<Domain>, i: nat)
    requires forall j :: 0 <= j < |metrics| ==> 0 <= metrics[j].rawScore <= METRIC_SCORE_MAX
    requires i < |domains|
    ensures |DomainScores(metrics, domains)| == |domains|
    ensures DomainScores(metrics, domains)[i] == LineOf(metrics, domains[i])
  {
    var n := |domains| - 1;
    DomainScoresGrow(metrics, domains);
    if n == 0 {
      assert DomainScores(metrics, domains[..n]) == [];
    } else {
      DomainScoresAt(metrics, domains[..n], if i < n then i else 0);
    }
  }

  /** The weights of the domains in their order. */
  const WEIGHTS: seq<nat> := [20, 15, 15, 15, 7, 8, 7, 6, 7]

  lemma WeightsMakeAHundred()
    ensures |WEIGHTS| == |DOMAINS| && forall i :: 0 <= i < |DOMAINS| ==> DomainWeight(DOMAINS[i]) == WEIGHTS[i]
    ensures DomainWeight(EDU) + DomainWeight(DEV) + DomainWeight(CHR) + DomainWeight(DIS) + DomainWeight(CUL)
          + DomainWeight(RES) + DomainWeight(SPT) + DomainWeight(ART) + DomainWeight(PER) == 100
  {
  }

  /** Every domain has its line in the summary: its weight, how many indicators count, and
      the value about which they balance, rounded to hundredths, when there is one. */
  lemma DomainLineExactly(rows: seq<MetricRow>, catalog: map<string, Domain>, settingPercent: int, i: nat) returns (x: real)
    requires i < |DOMAINS|
    ensures var lines := EvaluationSummary(rows, catalog, settingPercent).domainScores;
            && |lines| == |DOMAINS| && lines[i].domain == DOMAINS[i] && lines[i].weight == WEIGHTS[i]
            && lines[i].completed == CountFor(rows, catalog, DOMAINS[i])
            && (lines[i].score.Some? <==> CountFor(rows, catalog, DOMAINS[i]) > 0)
            && (lines[i].score.Some? ==>
                  DomainBalance(rows, catalog, DOMAINS[i], x) == 0.0 && lines[i].score.value == Quantize(x, HalfEven, 2))
  {
    var d := DOMAINS[i];
    var metrics := Assessed(rows, catalog);
    var values := DomainValues(metrics, d);
    WeightsMakeAHundred();
    DomainScoresAt(metrics, DOMAINS, i);
    AssessedValues(rows, catalog, d);
    x := 0.0;
    if values != [] {
      x := ExactDomainScore(values);
      ExactScoreBalances(values);
    }
    DomainBalanceOfValues(rows, catalog, d, x);
  }

  // ---------------------------------------------------------------- the overall score

  /** The weighted deviations from `x` of the domains that have a score. */
  function OverallBalance(lines: seq<DomainScore>, x: real): real {
    if lines == [] then 0.0
    else
      var last := lines[|lines| - 1];
      OverallBalance(lines[..|lines| - 1], x) + if last.score.Some? then Pull(last.score.value, last.weight as real, x) else 0.0
  }

  lemma {:induction false} OverallBalanceOfItems(lines: seq<DomainScore>, x: real)
    ensures OverallBalance(lines, x) == Excess(Scored(lines), x)
  {
    if lines != [] {
      var n := |lines| - 1;
      OverallBalanceOfItems(lines[..n], x);
      if lines[n].score.Some? {
        ExcessGrows(Scored(lines[..n]), Weighted(lines[n].score.value, lines[n].weight as real), x);
      }
    }
  }

  /** The level a score earns. */
  predicate IsLevelOf(level: Level, score: real) {
    match level
    case Excellent => 17.0 <= score
    case Good => 14.0 <= score && score < 17.0
    case Average => 10.0 <= score && score < 14.0
    case Weak => score < 10.0
  }

  lemma LevelsAreExact(level: Level, score: real)
    ensures PerformanceLevel(score) == level <==> IsLevelOf(level, score)
  {
  }

  /** The overall score is the value about which the rounded domain scores balance by their
      weights, rounded again; a final evaluation has the level this score earns, and the
      completion is the share of the catalog that counts, to the nearest hundredth. */
  lemma OverallScoreBalances(rows: seq<MetricRow>, catalog: map<string, Domain>, settingPercent: int) returns (x: real)
    ensures var s := EvaluationSummary(rows, catalog, settingPercent);
            && (s.overallScore.None? <==> forall i :: 0 <= i < |s.domainScores| ==> s.domainScores[i].score.None?)
            && (s.overallScore.Some? ==>
                  OverallBalance(s.domainScores, x) == 0.0 && s.overallScore.value == Quantize(x, HalfEven, 2))
            && (s.level.Some? <==> s.isFinal && s.overallScore.Some?)
            && (s.level.Some? ==> IsLevelOf(s.level.value, s.overallScore.value))
            && (|catalog| == 0 ==> s.completionPercent == 0.0)
            && (|catalog| > 0 ==>
                  var share := |s.metrics| as real / |catalog| as real * 100.0;
                  share - 0.005 <= s.completionPercent <= share + 0.005)
  {
    var s := EvaluationSummary(rows, catalog, settingPercent);
    var items := Scored(s.domainScores);
    ScoredDomains(Assessed(rows, catalog), DOMAINS);
    SomeLineIsScored(s.domainScores);
    x := 0.0;
    if items != [] {
      MeanBalances(items);
      x := Mean(items);
    }
    OverallBalanceOfItems(s.domainScores, x);
    if s.level.Some? {
      LevelsAreExact(s.level.value, s.overallScore.value);
    }
    if |catalog| > 0 {
      ScaleGrid();
      QuantizeIsNear(|s.metrics| as real / |catalog| as real * 100.0, HalfEven, 2);
    }
  }

  lemma {:induction false} SomeLineIsScored(lines: seq<DomainScore>)
    ensures Scored(lines) == [] <==> forall i :: 0 <= i < |lines| ==> lines[i].score.None?
  {
    if lines != [] {
      SomeLineIsScored(lines[..|lines| - 1]);
    }
  }

  // ---------------------------------------------------------------- one student

  /** The deviations from `x` of the months that count: the final ones when the last month is
      final, all of them otherwise. */
  function MonthBalance(months: seq<Summary>, lastIsFinal: bool, x: real): real {
    if months == [] then 0.0
    else
      var last := months[|months| - 1];
      MonthBalance(months[..|months| - 1], lastIsFinal, x)
      + if last.overallScore.Some? && (lastIsFinal ==> last.isFinal) then last.overallScore.value - x else 0.0
  }

  lemma {:induction false} MonthBalanceOfItems(months: seq<Summary>, lastIsFinal: bool, x: real)
    ensures MonthBalance(months, lastIsFinal, x) == Excess(PooledScores(months, lastIsFinal), x)
    ensures PositiveWeights(PooledScores(months, lastIsFinal))
    ensures PooledScores(months, lastIsFinal) == []
       <==> forall i :: 0 <= i < |months| ==> months[i].overallScore.None? || (lastIsFinal && !months[i].isFinal)
  {
    if months != [] {
      var n := |months| - 1;
      MonthBalanceOfItems(months[..n], lastIsFinal, x);
      if months[n].overallScore.Some? && (lastIsFinal ==> months[n].isFinal) {
        ExcessGrows(PooledScores(months[..n], lastIsFinal), Weighted(months[n].overallScore.value, 1.0), x);
      }
    }
  }

  /** A student is final when the last month is; the score is the value about which the
      months that count balance, every month alike, rounded; a final one earns its level. */
  lemma StudentScoreBalances(months: seq<Summary>) returns (x: real)
    requires months != []
    ensures var s, lastIsFinal := SummarizeStudent(months), months[|months| - 1].isFinal;
            && s.isFinal == lastIsFinal
            && (s.overallScore.None? <==>
                  forall i :: 0 <= i < |months| ==> months[i].overallScore.None? || (lastIsFinal && !months[i].isFinal))
            && (s.overallScore.Some? ==>
                  MonthBalance(months, lastIsFinal, x) == 0.0 && s.overallScore.value == Quantize(x, HalfEven, 2))
            && (s.level.Some? <==> lastIsFinal && s.overallScore.Some?)
            && (s.level.Some? ==> IsLevelOf(s.level.value, s.overallScore.value))
  {
    var lastIsFinal := months[|months| - 1].isFinal;
    var items := PooledScores(months, lastIsFinal);
    MonthBalanceOfItems(months, lastIsFinal, 0.0);
    x := 0.0;
    if items != [] {
      MeanBalances(items);
      x := Mean(items);
      MonthBalanceOfItems(months, lastIsFinal, x);
    }
    var s := SummarizeStudent(months);
    if s.level.Some? {
      LevelsAreExact(s.level.value, s.overallScore.value);
    }
  }

  // ---------------------------------------------------------------- ranking

  /** The candidates with a final score above `score`. */
  ghost predicate SomeoneAbove(candidates: seq<Candidate>, score: real) {
    exists i :: 0 <= i < |candidates| && IsAbove(candidates[i], score)
  }

  predicate IsAbove(c: Candidate, score: real) {
    c.summary.isFinal && c.summary.overallScore.Some? && c.summary.overallScore.value > score
  }

  /** Exactly the final students with a score are ranked; among them the higher score has the
      smaller rank, equal scores the same, and rank 1 has nobody above. */
  lemma RanksFollowScores(candidates: seq<Candidate>, i: nat, j: nat)
    requires i < |candidates| && j < |candidates|
    ensures var a, b := candidates[i].summary, candidates[j].summary;
            && (RankAmong(candidates, a).Some? <==> a.isFinal && a.overallScore.Some?)
            && (RankAmong(candidates, a).Some? && RankAmong(candidates, b).Some? ==>
                  && (RankAmong(candidates, a).value < RankAmong(candidates, b).value
                      <==> a.overallScore.value > b.overallScore.value)
                  && (RankAmong(candidates, a).value == RankAmong(candidates, b).value
                      <==> a.overallScore.value == b.overallScore.value))
            && (RankAmong(candidates, a).Some? ==>
                  (RankAmong(candidates, a).value == 1 <==> !SomeoneAbove(candidates, a.overallScore.value)))
  {
    var a, b := candidates[i].summary, candidates[j].summary;
    var scores := R.Scores(RankedEntries(candidates));
    if Rankable(a) && Rankable(b) {
      ScoreIsRanked(candidates, i);
      ScoreIsRanked(candidates, j);
      R.RankOrdersScores(scores, a.overallScore.value, b.overallScore.value);
      R.RankOrdersScores(scores, b.overallScore.value, a.overallScore.value);
    }
    if Rankable(a) {
      NobodyAbove(candidates, a.overallScore.value);
    }
  }

  lemma ScoreIsRanked(candidates: seq<Candidate>, i: nat)
    requires i < |candidates| && Rankable(candidates[i].summary)
    ensures candidates[i].summary.overallScore.value in R.Scores(RankedEntries(candidates))
  {
    var k := EntryTarget(candidates, i);
    assert RankedEntries(candidates)[k] in RankedEntries(candidates);
  }

  lemma NobodyAbove(candidates: seq<Candidate>, score: real)
    ensures R.Higher(R.Scores(RankedEntries(candidates)), score) == {} <==> !SomeoneAbove(candidates, score)
  {
    var above := R.Higher(R.Scores(RankedEntries(candidates)), score);
    if above != {} {
      var v :| v in above;
      var e :| e in RankedEntries(candidates) && e.score == v;
      var k :| 0 <= k < |RankedEntries(candidates)| && RankedEntries(candidates)[k] == e;
      var i := EntrySource(candidates, k);
      assert IsAbove(candidates[i], score);
    }
    forall i | 0 <= i < |candidates| && IsAbove(candidates[i], score)
      ensures candidates[i].summary.overallScore.value in above
    {
      ScoreIsRanked(candidates, i);
    }
  }

  /** The ranked students and the students of a level are counted one by one. */
  lemma CountsGrowByOne(candidates: seq<Candidate>, c: Candidate, level: Level)
    ensures |RankedEntries([])| == 0 && CountLevel([], level) == 0
    ensures |RankedEntries(candidates + [c])|
         == |RankedEntries(candidates)| + if c.summary.isFinal && c.summary.overallScore.Some? then 1 else 0
    ensures CountLevel(candidates + [c], level)
         == CountLevel(candidates, level)
            + if c.summary.isFinal && c.summary.overallScore.Some? && c.summary.level == Some(level) then 1 else 0
  {
    assert (candidates + [c])[..|candidates|] == candidates;
  }

  // ---------------------------------------------------------------- the page

  /** The same achievement reads as the same percentage in every unit the page accepts: as a
      percentage, as a score of 20 and as a rubric mark of 5. */
  lemma UnitsAgree(mark: int)
    requires 0 <= mark <= 5
    ensures A.MetricValue(Some(mark as real), A.Rubric5) == Some(mark as real / 5.0 * 100.0)
    ensures A.MetricValue(Some(mark as real), A.Unspecified) == A.MetricValue(Some(mark as real), A.Rubric5)
    ensures A.MetricValue(Some(mark as real * 4.0), A.Score20) == A.MetricValue(Some(mark as real), A.Rubric5)
    ensures A.MetricValue(Some(mark as real * 20.0), A.Percent) == A.MetricValue(Some(mark as real), A.Rubric5)
  {
    assert (mark as real).Floor == mark;
  }

  /** Values on the scale of 20 and percentages keep their share; what lies outside its scale
      is not read, nor are ratios, differences, and rubric marks that are not whole. */
  lemma SharesAreKept(v: real)
    ensures A.MetricValue(Some(v), A.Percent).Some? <==> 0.0 <= v && v <= 100.0
    ensures 0.0 <= v <= 100.0 ==> A.MetricValue(Some(v), A.Percent).value == v
    ensures A.MetricValue(Some(v), A.Score20).Some? <==> 0.0 <= v && v <= 20.0
    ensures 0.0 <= v <= 20.0 ==> A.MetricValue(Some(v), A.Score20).value / 100.0 == v / 20.0
    ensures A.MetricValue(Some(v), A.Rubric5).Some?
       <==> v == 0.0 || v == 1.0 || v == 2.0 || v == 3.0 || v == 4.0 || v == 5.0
    ensures A.MetricValue(Some(v), A.Ratio).None? && A.MetricValue(Some(v), A.Delta).None?
    ensures forall kind :: A.MetricValue(None, kind).None?
  {
    if 0.0 <= v <= 5.0 && v.Floor as real == v {
      assert 0 <= v.Floor <= 5;
    }
  }

  /** A summary row is read by the first number it has: its percentage, its score, its value;
      a row without data or with a number off its scale is not read. */
  lemma SummaryRowIsRead(s: A.SentDomain)
    ensures var p := A.DomainPercent(s);
            && (s.withoutData ==> p.None?)
            && (!s.withoutData && s.percent.Some? ==> p == A.MetricValue(s.percent, A.Percent))
            && (!s.withoutData && s.percent.None? && s.score.Some? ==>
                  p == A.MetricValue(s.score, if s.scoreUnit.Percent? then A.Percent else A.Score20))
            && (!s.withoutData && s.percent.None? && s.score.None? ==>
                  p == if s.valueUnit.Percent? || s.valueUnit.Score20? then A.MetricValue(s.value, s.valueUnit) else None)
  {
  }

  /** The page rounds to the nearest whole number and ties upwards. */
  lemma PageRoundsTiesUp(x: real, n: int)
    ensures A.JsRound(x) == n <==> x - 0.5 < n as real <= x + 0.5
  {
    var m := A.JsRound(x);
    assert m as real <= x + 0.5 < m as real + 1.0;
  }

  lemma {:induction false} LastSentCounts(sent: seq<A.SentDomain>, d: Domain, k: nat)
    requires k < |sent| && sent[k].domain == d && forall j :: k < j < |sent| ==> sent[j].domain != d
    ensures A.SentFor(sent, d) == Some(sent[k])
  {
    if k < |sent| - 1 {
      LastSentCounts(sent[..|sent| - 1], d, k);
    }
  }

  lemma {:induction false} NothingSent(sent: seq<A.SentDomain>, d: Domain)
    requires forall j :: 0 <= j < |sent| ==> sent[j].domain != d
    ensures A.SentFor(sent, d).None?
  {
    if sent != [] {
      NothingSent(sent[..|sent| - 1], d);
    }
  }

  lemma {:induction false} NormalizedAt(sent: seq<A.SentDomain>, rows: seq<A.Row>, domains: seq<Domain>, i: nat)
    requires i < |domains|
    ensures |A.NormalizedDomains(sent, rows, domains)| == |domains|
    ensures A.NormalizedDomains(sent, rows, domains)[i]
         == A.DomainRowOf(A.SentFor(sent, domains[i]), A.GroupOf(rows, domains[i]), domains[i])
  {
    var n := |domains| - 1;
    if n > 0 {
      NormalizedAt(sent, rows, domains[..n], if i < n then i else 0);
    }
  }

  /** The page shows for a domain what its last summary row says, if that can be read, and
      its weight; only otherwise the mean of the indicators. */
  lemma SentValueComesFirst(sent: seq<A.SentDomain>, rows: seq<A.Row>, i: nat, k: nat)
    requires i < |DOMAINS| && k < |sent| && sent[k].domain == DOMAINS[i]
    requires forall j :: k < j < |sent| ==> sent[j].domain != DOMAINS[i]
    ensures var shown := A.NormalizedDomains(sent, rows, DOMAINS);
            && |shown| == |DOMAINS| && shown[i].domain == DOMAINS[i]
            && shown[i].weight == (if sent[k].weight.Some? then sent[k].weight.value else WEIGHTS[i])
            && (A.DomainPercent(sent[k]).Some? ==> shown[i].value == A.DomainPercent(sent[k]))
            && (A.DomainPercent(sent[k]).None? ==> shown[i].value == A.GroupMean(A.GroupOf(rows, DOMAINS[i])))
  {
    LastSentCounts(sent, DOMAINS[i], k);
    NormalizedAt(sent, rows, DOMAINS, i);
    WeightsMakeAHundred();
  }

  /** Without a summary row the mean of the indicators is shown. */
  lemma MeanIsShownOtherwise(sent: seq<A.SentDomain>, rows: seq<A.Row>, i: nat)
    requires i < |DOMAINS| && forall j :: 0 <= j < |sent| ==> sent[j].domain != DOMAINS[i]
    ensures |A.NormalizedDomains(sent, rows, DOMAINS)| == |DOMAINS|
    ensures A.NormalizedDomains(sent, rows, DOMAINS)[i]
         == A.DomainRow(DOMAINS[i], WEIGHTS[i], A.GroupMean(A.GroupOf(rows, DOMAINS[i])))
  {
    NothingSent(sent, DOMAINS[i]);
    NormalizedAt(sent, rows, DOMAINS, i);
    WeightsMakeAHundred();
  }
}
