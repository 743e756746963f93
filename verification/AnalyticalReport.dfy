/** The report page's own overall score: it is recomputed in the browser from the raw
    indicator rows, on a percent scale and with a single rounding at the end. */
module AnalyticalReport {
  import opened Options
  import opened Rounding
  import opened Averages
  import E = Evaluations

  datatype UnitKind = Percent | Score20 | Rubric5 | Ratio | Delta | Unspecified

  /** A raw value as a percentage, or nothing when its unit or range is not authoritative. */
  function MetricValue(numeric: Option<real>, kind: UnitKind): (percent: Option<real>)
    ensures percent.Some? ==> 0.0 <= percent.value <= 100.0
  {
    if numeric == None then None
    else
      var v := numeric.value;
      match kind
      case Percent => if 0.0 <= v <= 100.0 then Some(v) else None
      case Score20 => if 0.0 <= v <= 20.0 then Some(v * 5.0) else None
      case Delta => None
      case Ratio => None
      case Rubric5 => RubricPercent(v)
      case Unspecified => RubricPercent(v)
  }

  function RubricPercent(v: real): Option<real> {
    if v.Floor as real != v || v < 0.0 || v > 5.0 then None else Some(v * 20.0)
  }

  /** A normalised row of the page: the domain and the percentage. */
  datatype Row = Row(domain: E.Domain, value: Option<real>)

  datatype DomainRow = DomainRow(domain: E.Domain, weight: int, value: Option<real>)

  /** The percentages of one domain, in row order. */
  function GroupOf(rows: seq<Row>, d: E.Domain): seq<real> {
    if rows == [] then []
    else
      var front := GroupOf(rows[..|rows| - 1], d);
      var last := rows[|rows| - 1];
      if last.domain == d && last.value.Some? && 0.0 <= last.value.value <= 100.0
      then front + [last.value.value] else front
  }

  function RealSum(values: seq<real>): real {
    if values == [] then 0.0 else RealSum(values[..|values| - 1]) + values[|values| - 1]
  }

  function Clamp(v: real): real {
    if v < 0.0 then 0.0 else if v > 100.0 then 100.0 else v
  }

  function GroupMean(values: seq<real>): Option<real> {
    if values == [] then None else Some(Clamp(RealSum(values) / |values| as real))
  }

  /** A summary row of a domain that the page received; a later row of a domain replaces an
      earlier one. */
  datatype SentDomain = SentDomain(
    domain: E.Domain, withoutData: bool,
    percent: Option<real>, score: Option<real>, scoreUnit: UnitKind, value: Option<real>, valueUnit: UnitKind,
    weight: Option<int>)

  function Between(v: real, high: real, factor: real): Option<real> {
    if 0.0 <= v <= high then Some(v * factor) else None
  }

  /** The percentage of a summary row, or nothing when its unit or range is not authoritative. */
  function DomainPercent(s: SentDomain): Option<real> {
    if s.withoutData then None
    else if s.percent.Some? then Between(s.percent.value, 100.0, 1.0)
    else if s.score.Some? then
      if s.scoreUnit == Percent then Between(s.score.value, 100.0, 1.0) else Between(s.score.value, 20.0, 5.0)
    else if s.value.Some? && s.valueUnit == Percent then Between(s.value.value, 100.0, 1.0)
    else if s.value.Some? && s.valueUnit == Score20 then Between(s.value.value, 20.0, 5.0)
    else None
  }

  function SentFor(sent: seq<SentDomain>, d: E.Domain): (s: Option<SentDomain>)
    ensures s.Some? ==> s.value in sent && s.value.domain == d
  {
    if sent == [] then None
    else if sent[|sent| - 1].domain == d then Some(sent[|sent| - 1])
    else SentFor(sent[..|sent| - 1], d)
  }

  function NormalizedDomains(sent: seq<SentDomain>, rows: seq<Row>, domains: seq<E.Domain>): seq<DomainRow> {
    if domains == [] then []
    else
      NormalizedDomains(sent, rows, domains[..|domains| - 1])
      + [DomainRowOf(SentFor(sent, domains[|domains| - 1]), GroupOf(rows, domains[|domains| - 1]), domains[|domains| - 1])]
  }

  /** The usable percentage that was sent comes first, the mean of the indicators second. */
  function DomainRowOf(source: Option<SentDomain>, values: seq<real>, d: E.Domain): DomainRow {
    var given := if source.Some? then DomainPercent(source.value) else None;
    DomainRow(d, if source.Some? && source.value.weight.Some? then source.value.weight.value else E.DomainWeight(d),
              if given.Some? then given else GroupMean(values))
  }

  /** `normalizeDomainScores`: fill a map of summary rows and a map of groups, then map the
      domain list. */
  method NormalizeDomainScores(sent: seq<SentDomain>, rows: seq<Row>) returns (result: seq<DomainRow>)
    ensures result == NormalizedDomains(sent, rows, E.DOMAINS)
  {
    var rowByCode := IndexRows(sent);
    var groups := GroupRows(rows);
    result := NormalizeOver(sent, rows, rowByCode, groups, E.DOMAINS);
  }

  function Lookup<T>(m: map<E.Domain, T>, d: E.Domain): Option<T> {
    if d in m then Some(m[d]) else None
  }

  method IndexRows(sent: seq<SentDomain>) returns (rowByCode: map<E.Domain, SentDomain>)
    ensures forall d :: Lookup(rowByCode, d) == SentFor(sent, d)
  {
    rowByCode := map[];
    for i := 0 to |sent|
      invariant forall d :: Lookup(rowByCode, d) == SentFor(sent[..i], d)
    {
      assert sent[..i + 1][..i] == sent[..i];
      rowByCode := rowByCode[sent[i].domain := sent[i]];
    }
    assert sent[..|sent|] == sent;
  }

  method NormalizeOver(ghost sent: seq<SentDomain>, ghost rows: seq<Row>, rowByCode: map<E.Domain, SentDomain>,
                       groups: map<E.Domain, seq<real>>, domains: seq<E.Domain>)
    returns (result: seq<DomainRow>)
    requires forall d :: Lookup(rowByCode, d) == SentFor(sent, d)
    requires forall d :: (if d in groups then groups[d] else []) == GroupOf(rows, d)
    ensures result == NormalizedDomains(sent, rows, domains)
  {
    result := [];
    for i := 0 to |domains|
      invariant result == NormalizedDomains(sent, rows, domains[..i])
    {
      assert domains[..i + 1][..i] == domains[..i];
      var d := domains[i];
      var values := if d in groups then groups[d] else [];
      result := result + [DomainRowOf(Lookup(rowByCode, d), values, d)];
    }
    assert domains[..|domains|] == domains;
  }

  method GroupRows(rows: seq<Row>) returns (groups: map<E.Domain, seq<real>>)
    ensures forall d :: (if d in groups then groups[d] else []) == GroupOf(rows, d)
  {
    groups := map[];
    for i := 0 to |rows|
      invariant forall d :: (if d in groups then groups[d] else []) == GroupOf(rows[..i], d)
    {
      assert rows[..i + 1][..i] == rows[..i];
      var item := rows[i];
      if item.value.Some? && 0.0 <= item.value.value <= 100.0 {
        var d := item.domain;
        groups := groups[d := (if d in groups then groups[d] else []) + [item.value.value]];
      }
    }
    assert rows[..|rows|] == rows;
  }

  /** The domains that enter the average, back on the 0..20 scale. */
  function ScoredDomains(domains: seq<DomainRow>): seq<Weighted> {
    if domains == [] then []
    else
      ScoredDomains(domains[..|domains| - 1]) + ScoredItem(domains[|domains| - 1])
  }

  /** A domain takes part when it has a value and a positive weight. */
  function ScoredItem(row: DomainRow): seq<Weighted> {
    if row.value.Some? && row.weight > 0 then [Weighted(row.value.value / 5.0, row.weight as real)] else []
  }

  /** JavaScript's `Math.round`: ties go up. */
  function JsRound(x: real): int { (x + 0.5).Floor }

  function WeightedOverallScore(domains: seq<DomainRow>): Option<real> {
    var items := ScoredDomains(domains);
    if WeightSum(items) > 0.0 then Some(JsRound(Mean(items) * 100.0) as real / 100.0) else None
  }

  /** The rows the page builds from the indicators of an evaluation; the service declares
      their scale as 0..5. */
  function PageRows(metrics: seq<E.Metric>): seq<Row> {
    if metrics == [] then []
    else
      var last := metrics[|metrics| - 1];
      PageRows(metrics[..|metrics| - 1]) + [Row(last.domain, MetricValue(Some(last.rawScore as real), Rubric5))]
  }

  function PageOverallScore(sent: seq<SentDomain>, metrics: seq<E.Metric>): Option<real> {
    WeightedOverallScore(NormalizedDomains(sent, PageRows(metrics), E.DOMAINS))
  }

  // ---------------------------------------------------------------- agreement with the service

  predicate InRange(metrics: seq<E.Metric>) {
    forall i :: 0 <= i < |metrics| ==> 0 <= metrics[i].rawScore <= E.METRIC_SCORE_MAX
  }

  /** A summary row as the service sends it: the rounded score on the 0..20 scale. */
  function SentByService(s: E.DomainScore): SentDomain {
    SentDomain(s.domain, false, None, s.score, Unspecified, None, Unspecified, Some(s.weight))
  }

  /** The rows that arrived carry the service's score of their domain and its weight, or
      nothing usable. */
  predicate Faithful(sent: seq<SentDomain>, metrics: seq<E.Metric>)
    requires InRange(metrics)
  {
    forall i :: 0 <= i < |sent| ==> FaithfulRow(sent[i], E.DomainScoreOf(E.DomainValues(metrics, sent[i].domain)))
  }

  predicate FaithfulRow(s: SentDomain, score: Option<real>) {
    && (s.weight.None? || s.weight.value == E.DomainWeight(s.domain))
    && (DomainPercent(s).None? || (score.Some? && DomainPercent(s).value == score.value * 5.0))
  }

  /** A domain's percentages are twenty times its raw scores. */
  lemma {:induction false} GroupIsScaled(metrics: seq<E.Metric>, d: E.Domain)
    requires InRange(metrics)
    ensures |GroupOf(PageRows(metrics), d)| == |E.DomainValues(metrics, d)|
    ensures RealSum(GroupOf(PageRows(metrics), d)) == 20.0 * E.Sum(E.DomainValues(metrics, d)) as real
  {
    if metrics != [] {
      var n := |metrics| - 1;
      GroupIsScaled(metrics[..n], d);
      assert PageRows(metrics)[..n] == PageRows(metrics[..n]) by { PageRowsLength(metrics[..n]); }
      PageRowsLength(metrics[..n]);
      assert (metrics[n].rawScore as real).Floor == metrics[n].rawScore;
    }
  }

  lemma {:induction false} PageRowsLength(metrics: seq<E.Metric>)
    ensures |PageRows(metrics)| == |metrics|
  {
    if metrics != [] {
      PageRowsLength(metrics[..|metrics| - 1]);
    }
  }

  /** The page's unrounded domain score is the service's. */
  lemma GroupMeanIsExact(metrics: seq<E.Metric>, d: E.Domain)
    requires InRange(metrics)
    ensures var values := E.DomainValues(metrics, d);
            var mean := GroupMean(GroupOf(PageRows(metrics), d));
            && (mean.Some? <==> values != [])
            && (mean.Some? ==> mean.value / 5.0 == E.ExactDomainScore(values))
  {
    var values := E.DomainValues(metrics, d);
    GroupIsScaled(metrics, d);
    if values != [] {
      E.ExactDomainScoreInRange(values);
      PercentToScore(E.Sum(values) as real, |values| as real);
    }
  }

  lemma PercentToScore(sum: real, n: real)
    requires n > 0.0
    ensures (20.0 * sum) / n == 5.0 * (sum / n * 4.0)
  {
  }

  lemma ScoredDomainsStep(sent: seq<SentDomain>, rows: seq<Row>, domains: seq<E.Domain>)
    requires domains != []
    ensures var d := domains[|domains| - 1];
            (ScoredDomains(NormalizedDomains(sent, rows, domains))
             == ScoredDomains(NormalizedDomains(sent, rows, domains[..|domains| - 1]))
                + ScoredItem(DomainRowOf(SentFor(sent, d), GroupOf(rows, d), d)))
  {
    var front := NormalizedDomains(sent, rows, domains[..|domains| - 1]);
    var all := NormalizedDomains(sent, rows, domains);
    assert all[..|all| - 1] == front;
  }

  /** What the service sends is faithful. */
  lemma ServiceRowsAreFaithful(metrics: seq<E.Metric>, d: E.Domain, completed: nat)
    requires InRange(metrics)
    ensures var score := E.DomainScoreOf(E.DomainValues(metrics, d));
            FaithfulRow(SentByService(E.DomainScore(d, E.DomainWeight(d), score, completed)), score)
  {
    E.DomainScoreInRange(E.DomainValues(metrics, d));
  }

  /** One domain, sent or recomputed: both sides take it or both leave it, with the same
      weight and values at most half a hundredth apart. */
  lemma DomainIsClose(source: Option<SentDomain>, metrics: seq<E.Metric>, d: E.Domain)
    requires InRange(metrics)
    requires source.Some? ==> source.value.domain == d && FaithfulRow(source.value, E.DomainScoreOf(E.DomainValues(metrics, d)))
    ensures var score := E.DomainScoreOf(E.DomainValues(metrics, d));
            var service := if score.Some? then [Weighted(score.value, E.DomainWeight(d) as real)] else [];
            var page := ScoredItem(DomainRowOf(source, GroupOf(PageRows(metrics), d), d));
            CloseValues(service, page, 0.005) && Within(page, 0.0, 20.0)
  {
    var values := E.DomainValues(metrics, d);
    var row := DomainRowOf(source, GroupOf(PageRows(metrics), d), d);
    GroupMeanIsExact(metrics, d);
    if values != [] {
      RoundedDomainIsNear(values);
      E.DomainScoreInRange(values);
      ItemsAreClose(E.DomainScoreOf(values).value, row);
    }
  }

  lemma ItemsAreClose(score: real, row: DomainRow)
    requires row.value.Some? && row.weight > 0
    requires row.value.value / 5.0 - 0.005 <= score <= row.value.value / 5.0 + 0.005
    requires 0.0 <= row.value.value / 5.0 <= 20.0
    ensures CloseValues([Weighted(score, row.weight as real)], ScoredItem(row), 0.005) && Within(ScoredItem(row), 0.0, 20.0)
  {
  }

  lemma RoundedDomainIsNear(values: seq<int>)
    requires values != [] && forall i :: 0 <= i < |values| ==> 0 <= values[i] <= E.METRIC_SCORE_MAX
    ensures var exact, rounded := E.ExactDomainScore(values), E.DomainScoreOf(values);
            && rounded.Some? && exact - 0.005 <= rounded.value <= exact + 0.005
            && 0.0 <= exact <= 20.0
  {
    E.ExactDomainScoreInRange(values);
    QuantizeIsNear(E.ExactDomainScore(values), HalfEven, 2);
    E.ScaleGrid();
  }

  lemma {:induction false} DomainsAreClose(sent: seq<SentDomain>, metrics: seq<E.Metric>, domains: seq<E.Domain>)
    requires InRange(metrics) && Faithful(sent, metrics)
    ensures CloseValues(E.Scored(E.DomainScores(metrics, domains)),
                        ScoredDomains(NormalizedDomains(sent, PageRows(metrics), domains)), 0.005)
    ensures Within(ScoredDomains(NormalizedDomains(sent, PageRows(metrics), domains)), 0.0, 20.0)
  {
    if domains != [] {
      var n := |domains| - 1;
      DomainsAreClose(sent, metrics, domains[..n]);
      E.ScoredStep(metrics, domains);
      ScoredDomainsStep(sent, PageRows(metrics), domains);
      DomainIsClose(SentFor(sent, domains[n]), metrics, domains[n]);
    }
  }

  /** Rounding two values half a hundredth apart to hundredths, one half-even and one
      half-up, gives results at most one hundredth apart. */
  lemma RoundedApart(b: real, f: real)
    requires f - 0.005 <= b <= f + 0.005
    ensures var rb, rf := E.Round2(b), JsRound(f * 100.0) as real / 100.0;
            rf - 0.01 <= rb <= rf + 0.01
  {
    E.ScaleGrid();
    var m := RoundToInteger(b * 100.0, HalfEven);
    var n := JsRound(f * 100.0);
    RoundIsNear(b * 100.0, HalfEven);
    assert f * 100.0 - 0.5 < n as real <= f * 100.0 + 0.5;
    assert -1.5 <= m as real - n as real < 1.5;
    assert -1 <= m - n <= 1;
    assert E.Round2(b) == m as real / 100.0;
  }

  lemma JsRoundInRange(f: real)
    requires 0.0 <= f <= 20.0
    ensures 0.0 <= JsRound(f * 100.0) as real / 100.0 <= 20.0
  {
    var n := JsRound(f * 100.0);
    assert 0 <= n <= 2000;
  }

  /** The score of the page, from any mixture of summary rows that the service sent and
      domains recomputed from the raw rows, and the score of the service are both there or
      both missing, lie on the 0..20 scale and differ by at most one hundredth. */
  lemma OverallScoresAgree(sent: seq<SentDomain>, rows: seq<E.MetricRow>, catalog: map<string, E.Domain>, settingPercent: int)
    requires Faithful(sent, E.Assessed(rows, catalog))
    ensures var service := E.EvaluationSummary(rows, catalog, settingPercent).overallScore;
            var page := PageOverallScore(sent, E.EvaluationSummary(rows, catalog, settingPercent).metrics);
            && (service.Some? <==> page.Some?)
            && (service.Some? ==>
                  && 0.0 <= service.value <= 20.0 && 0.0 <= page.value <= 20.0
                  && page.value - 0.01 <= service.value <= page.value + 0.01)
  {
    var metrics := E.Assessed(rows, catalog);
    E.OverallScoreInRange(rows, catalog, settingPercent);
    ScoresAgreeOver(sent, metrics, E.DOMAINS);
  }

  /** The same for any list of domains. */
  lemma ScoresAgreeOver(sent: seq<SentDomain>, metrics: seq<E.Metric>, domains: seq<E.Domain>)
    requires InRange(metrics) && Faithful(sent, metrics)
    ensures var service := E.OverallScore(E.DomainScores(metrics, domains));
            var page := WeightedOverallScore(NormalizedDomains(sent, PageRows(metrics), domains));
            && (service.Some? <==> page.Some?)
            && (service.Some? ==> 0.0 <= page.value <= 20.0 && page.value - 0.01 <= service.value <= page.value + 0.01)
  {
    var scores, rows := E.DomainScores(metrics, domains), NormalizedDomains(sent, PageRows(metrics), domains);
    E.ScoredDomains(metrics, domains);
    DomainsAreClose(sent, metrics, domains);
    ListsAgree(scores, rows);
  }

  /** From the raw rows alone, without summary rows. */
  lemma RecomputedScoresAgree(rows: seq<E.MetricRow>, catalog: map<string, E.Domain>, settingPercent: int)
    ensures var service := E.EvaluationSummary(rows, catalog, settingPercent).overallScore;
            var page := PageOverallScore([], E.EvaluationSummary(rows, catalog, settingPercent).metrics);
            && (service.Some? <==> page.Some?)
            && (service.Some? ==> page.value - 0.01 <= service.value <= page.value + 0.01)
  {
    OverallScoresAgree([], rows, catalog, settingPercent);
  }

  lemma ListsAgree(scores: seq<E.DomainScore>, rows: seq<DomainRow>)
    requires PositiveWeights(E.Scored(scores)) && Within(ScoredDomains(rows), 0.0, 20.0)
    requires CloseValues(E.Scored(scores), ScoredDomains(rows), 0.005)
    ensures var service, page := E.OverallScore(scores), WeightedOverallScore(rows);
            && (service.Some? <==> page.Some?)
            && (service.Some? ==> 0.0 <= page.value <= 20.0 && page.value - 0.01 <= service.value <= page.value + 0.01)
  {
    RoundedMeansAgree(E.Scored(scores), ScoredDomains(rows));
  }

  lemma RoundedMeansAgree(back: seq<Weighted>, front: seq<Weighted>)
    requires PositiveWeights(back) && CloseValues(back, front, 0.005) && Within(front, 0.0, 20.0)
    ensures WeightSum(back) == WeightSum(front)
    ensures WeightSum(back) > 0.0 ==>
              var service, page := E.Round2(Mean(back)), JsRound(Mean(front) * 100.0) as real / 100.0;
              0.0 <= page <= 20.0 && page - 0.01 <= service <= page + 0.01
  {
    CloseSums(back, front, 0.005);
    if back != [] {
      CloseAverages(back, front, 0.005);
      RoundedApart(Mean(back), Mean(front));
      SumsAreBounded(front, 0.0, 20.0);
      MeanBetween(ProductSum(front), WeightSum(front), 0.0, 20.0);
      JsRoundInRange(Mean(front));
    }
  }
}
