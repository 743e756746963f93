/** Term grades: subject averages from approved scores, the term average from the subject
    averages, the pass decision, and the class ranking by term average. */
module Grades {
  import opened Options
  import opened Averages
  import opened Rounding
  import R = Ranking

  datatype AssessmentStatus = Draft | Submitted | Rejected | Approved | Locked

  datatype ScoreStatus = Present | ExcusedAbsent | UnexcusedAbsent | NotEntered

  datatype Policy = Policy(
    version: string,
    overallPassMark: real,
    decimalPlaces: nat,
    roundingMode: Mode,
    unexcusedAbsenceAsZero: bool)

  /** A score joined with its assessment. */
  datatype Score = Score(
    enrollment: nat,
    offering: nat,
    assessmentStatus: AssessmentStatus,
    maxScore: real,
    weight: real,
    status: ScoreStatus,
    value: real)
  {
    /** What the models' `clean` methods and constraints promise. */
    predicate Valid() {
      maxScore > 0.0 && weight > 0.0 && (status == Present ==> 0.0 <= value <= maxScore)
    }
  }

  /** A course offering joined with its grade subject. */
  datatype Offering = Offering(id: nat, classSection: nat, term: nat, active: bool,
                               coefficient: real, passMark: real)
  {
    predicate Valid() { coefficient > 0.0 && 0.0 <= passMark <= 20.0 }
  }

  datatype SubjectResult = SubjectResult(average: Option<real>, passed: bool, formulaVersion: string)

  datatype TermResult = TermResult(average: Option<real>, passed: bool, formulaVersion: string,
                                   classRank: Option<nat>)

  // ---------------------------------------------------------------- the formulas

  /** A score on the 0..20 scale, or nothing when it does not take part. */
  function NormalizedScore(score: Score, policy: Policy): Option<real>
    requires score.Valid()
  {
    if score.status == Present then Some(score.value * 20.0 / score.maxScore)
    else if score.status == UnexcusedAbsent && policy.unexcusedAbsenceAsZero then Some(0.0)
    else None
  }

  function RoundedAverage(items: seq<Weighted>, policy: Policy): Option<real> {
    if WeightSum(items) == 0.0 then None
    else Some(Quantize(ProductSum(items) / WeightSum(items), policy.roundingMode, policy.decimalPlaces))
  }

  lemma QuantizedBetween(v: real, policy: Policy, low: real, high: real)
    requires low <= v <= high
    requires OnGrid(low, policy.decimalPlaces) && OnGrid(high, policy.decimalPlaces)
    ensures low <= Quantize(v, policy.roundingMode, policy.decimalPlaces) <= high
  {
    QuantizeMonotone(low, v, policy.roundingMode, policy.decimalPlaces);
    QuantizeMonotone(v, high, policy.roundingMode, policy.decimalPlaces);
    QuantizeFixesExactlyTheGrid(low, policy.roundingMode, policy.decimalPlaces);
    QuantizeFixesExactlyTheGrid(high, policy.roundingMode, policy.decimalPlaces);
  }

  /** A rounded weighted average stays between two bounds that are on the grid. */
  lemma AverageBetweenGridBounds(items: seq<Weighted>, policy: Policy, low: real, high: real)
    requires items != [] && PositiveWeights(items) && Within(items, low, high)
    requires OnGrid(low, policy.decimalPlaces) && OnGrid(high, policy.decimalPlaces)
    ensures RoundedAverage(items, policy).Some?
    ensures low <= RoundedAverage(items, policy).value <= high
  {
    SumsAreBounded(items, low, high);
    MeanBetween(ProductSum(items), WeightSum(items), low, high);
    QuantizedBetween(ProductSum(items) / WeightSum(items), policy, low, high);
  }

  // ---------------------------------------------------------------- one enrollment, one term

  predicate Counts(score: Score, enrollment: nat, offering: nat) {
    && score.enrollment == enrollment
    && score.offering == offering
    && (score.assessmentStatus == Approved || score.assessmentStatus == Locked)
  }

  predicate ValidScores(scores: seq<Score>) {
    forall i :: 0 <= i < |scores| ==> scores[i].Valid()
  }

  /** What one offering averages over: its approved or locked scores that have a value. */
  function SubjectItems(scores: seq<Score>, enrollment: nat, offering: nat, policy: Policy): seq<Weighted>
    requires ValidScores(scores)
  {
    if scores == [] then []
    else
      var front := SubjectItems(scores[..|scores| - 1], enrollment, offering, policy);
      var last := scores[|scores| - 1];
      var normalized := NormalizedScore(last, policy);
      if Counts(last, enrollment, offering) && normalized.Some?
      then front + [Weighted(normalized.value, last.weight)] else front
  }

  function SubjectOutcome(scores: seq<Score>, enrollment: nat, offering: Offering, policy: Policy): SubjectResult
    requires ValidScores(scores)
  {
    var average := RoundedAverage(SubjectItems(scores, enrollment, offering.id, policy), policy);
    SubjectResult(average, average.Some? && average.value >= offering.passMark, policy.version)
  }

  /** What the term averages over: the subjects that have an average. */
  function TermItems(scores: seq<Score>, enrollment: nat, offerings: seq<Offering>, policy: Policy): seq<Weighted>
    requires ValidScores(scores)
  {
    if offerings == [] then []
    else
      var front := TermItems(scores, enrollment, offerings[..|offerings| - 1], policy);
      var last := offerings[|offerings| - 1];
      var average := SubjectOutcome(scores, enrollment, last, policy).average;
      if average.Some? then front + [Weighted(average.value, last.coefficient)] else front
  }

  lemma SubjectItemsStep(scores: seq<Score>, enrollment: nat, offering: nat, i: nat, policy: Policy)
    requires ValidScores(scores) && i < |scores|
    ensures var normalized := NormalizedScore(scores[i], policy);
            var taken := Counts(scores[i], enrollment, offering) && normalized.Some?;
            var before := SubjectItems(scores[..i], enrollment, offering, policy);
            var after := SubjectItems(scores[..i + 1], enrollment, offering, policy);
            && WeightSum(after) == WeightSum(before) + (if taken then scores[i].weight else 0.0)
            && ProductSum(after)
                 == ProductSum(before) + (if taken then normalized.value * scores[i].weight else 0.0)
  {
    assert scores[..i + 1][..i] == scores[..i];
    var before := SubjectItems(scores[..i], enrollment, offering, policy);
    var normalized := NormalizedScore(scores[i], policy);
    if normalized.Some? {
      assert (before + [Weighted(normalized.value, scores[i].weight)])[..|before|] == before;
    }
  }

  lemma TermItemsGrow(scores: seq<Score>, enrollment: nat, offerings: seq<Offering>, i: nat, policy: Policy)
    requires ValidScores(scores) && i < |offerings|
    ensures var average := SubjectOutcome(scores, enrollment, offerings[i], policy).average;
            TermItems(scores, enrollment, offerings[..i + 1], policy)
            == TermItems(scores, enrollment, offerings[..i], policy)
               + if average.Some? then [Weighted(average.value, offerings[i].coefficient)] else []
  {
    assert offerings[..i + 1][..i] == offerings[..i];
  }

  predicate SumsAre(weightedSum: real, coefficientSum: real, items: seq<Weighted>) {
    weightedSum == ProductSum(items) && coefficientSum == WeightSum(items)
  }

  lemma SumsGrow(before: seq<Weighted>, average: Option<real>, coefficient: real, after: seq<Weighted>,
                 weightedSum: real, coefficientSum: real)
    requires SumsAre(weightedSum, coefficientSum, before)
    requires after == before + if average.Some? then [Weighted(average.value, coefficient)] else []
    ensures if average.Some? then SumsAre(weightedSum + average.value * coefficient, coefficientSum + coefficient, after)
            else SumsAre(weightedSum, coefficientSum, after)
  {
    if average.Some? {
      SumsOfMore(before, Weighted(average.value, coefficient));
    } else {
      assert after == before;
    }
  }

  lemma RowGrows(scores: seq<Score>, enrollment: nat, offerings: seq<Offering>, i: nat, policy: Policy, row: SubjectResult)
    requires ValidScores(scores) && i < |offerings| && row == SubjectOutcome(scores, enrollment, offerings[i], policy)
    ensures TermItems(scores, enrollment, offerings[..i + 1], policy)
         == TermItems(scores, enrollment, offerings[..i], policy)
            + if row.average.Some? then [Weighted(row.average.value, offerings[i].coefficient)] else []
  {
    TermItemsGrow(scores, enrollment, offerings, i, policy);
  }

  predicate Complete(scores: seq<Score>, enrollment: nat, offerings: seq<Offering>, policy: Policy)
    requires ValidScores(scores)
  {
    && offerings != []
    && forall i :: 0 <= i < |offerings| ==> SubjectOutcome(scores, enrollment, offerings[i], policy).average.Some?
  }

  predicate PassedAll(scores: seq<Score>, enrollment: nat, offerings: seq<Offering>, policy: Policy)
    requires ValidScores(scores)
  {
    forall i :: 0 <= i < |offerings| ==> SubjectOutcome(scores, enrollment, offerings[i], policy).passed
  }

  /** Average and pass decision of a term; the rank is set by the class pass. */
  function TermOutcome(scores: seq<Score>, enrollment: nat, offerings: seq<Offering>, policy: Policy,
                       rank: Option<nat>): TermResult
    requires ValidScores(scores)
  {
    var average := RoundedAverage(TermItems(scores, enrollment, offerings, policy), policy);
    TermResult(
      average,
      && Complete(scores, enrollment, offerings, policy)
      && average.Some? && average.value >= policy.overallPassMark
      && PassedAll(scores, enrollment, offerings, policy),
      policy.version,
      rank)
  }

  // ---------------------------------------------------------------- properties of the formulas

  lemma ScaleEndsOnGrid(places: nat)
    ensures OnGrid(0.0, places) && OnGrid(20.0, places)
  {
    var scale := Power10(places) as real;
    assert 0.0 == Multiple(0, scale);
    DivideUndoesMultiply(20.0, scale);
    assert 20.0 * scale == (20 * Power10(places)) as real;
    assert 20.0 == Multiple(20 * Power10(places), scale);
  }

  lemma NormalizedScoreInRange(score: Score, policy: Policy)
    requires score.Valid()
    ensures var n := NormalizedScore(score, policy); n.Some? ==> 0.0 <= n.value <= 20.0
  {
    if score.status == Present {
      MeanBetween(score.value * 20.0, score.maxScore, 0.0, 20.0);
    }
  }

  lemma {:induction false} SubjectItemsInRange(scores: seq<Score>, enrollment: nat, offering: nat, policy: Policy)
    requires ValidScores(scores)
    ensures var items := SubjectItems(scores, enrollment, offering, policy);
            PositiveWeights(items) && Within(items, 0.0, 20.0)
  {
    if scores != [] {
      SubjectItemsInRange(scores[..|scores| - 1], enrollment, offering, policy);
      NormalizedScoreInRange(scores[|scores| - 1], policy);
    }
  }

  /** In every rounding mode a subject average stays on the 0..20 scale and on the grid, and
      it is missing exactly when no score takes part. */
  lemma SubjectAverageInRange(scores: seq<Score>, enrollment: nat, offering: Offering, policy: Policy)
    requires ValidScores(scores)
    ensures var average := SubjectOutcome(scores, enrollment, offering, policy).average;
            && (average.Some? <==> SubjectItems(scores, enrollment, offering.id, policy) != [])
            && (average.Some? ==> 0.0 <= average.value <= 20.0 && OnGrid(average.value, policy.decimalPlaces))
  {
    var items := SubjectItems(scores, enrollment, offering.id, policy);
    SubjectItemsInRange(scores, enrollment, offering.id, policy);
    if items != [] {
      ScaleEndsOnGrid(policy.decimalPlaces);
      AverageBetweenGridBounds(items, policy, 0.0, 20.0);
      QuantizeFixesExactlyTheGrid(ProductSum(items) / WeightSum(items), policy.roundingMode, policy.decimalPlaces);
    }
  }

  predicate ValidOfferings(offerings: seq<Offering>) {
    forall i :: 0 <= i < |offerings| ==> offerings[i].Valid()
  }

  predicate IsSubjectAverage(scores: seq<Score>, enrollment: nat, offerings: seq<Offering>, policy: Policy, v: real)
    requires ValidScores(scores)
  {
    exists i :: 0 <= i < |offerings| && SubjectOutcome(scores, enrollment, offerings[i], policy).average == Some(v)
  }

  /** Every term item is the average of some offering. */
  lemma {:induction false} TermItemsComeFromSubjects(scores: seq<Score>, enrollment: nat,
                                                     offerings: seq<Offering>, policy: Policy)
    requires ValidScores(scores) && ValidOfferings(offerings)
    ensures var items := TermItems(scores, enrollment, offerings, policy);
            && PositiveWeights(items)
            && (forall k :: 0 <= k < |items| ==> OnGrid(items[k].value, policy.decimalPlaces))
            && (forall k :: 0 <= k < |items| ==> IsSubjectAverage(scores, enrollment, offerings, policy, items[k].value))
            && (Complete(scores, enrollment, offerings, policy) ==> items != [])
  {
    if offerings != [] {
      var front, last := offerings[..|offerings| - 1], offerings[|offerings| - 1];
      TermItemsComeFromSubjects(scores, enrollment, front, policy);
      SubjectAverageInRange(scores, enrollment, last, policy);
      var frontItems := TermItems(scores, enrollment, front, policy);
      forall k | 0 <= k < |frontItems|
        ensures IsSubjectAverage(scores, enrollment, offerings, policy, frontItems[k].value)
      {
        var i :| 0 <= i < |front|
                 && SubjectOutcome(scores, enrollment, front[i], policy).average == Some(frontItems[k].value);
        assert offerings[i] == front[i];
      }
    }
  }

  /** The term average lies between the smallest and the largest rounded subject average,
      with no tolerance: rounding never pushes it outside. */
  lemma TermAverageBetweenSubjects(scores: seq<Score>, enrollment: nat, offerings: seq<Offering>, policy: Policy)
    returns (lo: nat, hi: nat)
    requires ValidScores(scores) && ValidOfferings(offerings)
    requires TermItems(scores, enrollment, offerings, policy) != []
    ensures var items := TermItems(scores, enrollment, offerings, policy);
            && lo < |items| && hi < |items| && Within(items, items[lo].value, items[hi].value)
            && RoundedAverage(items, policy).Some?
            && items[lo].value <= RoundedAverage(items, policy).value <= items[hi].value
  {
    var items := TermItems(scores, enrollment, offerings, policy);
    TermItemsComeFromSubjects(scores, enrollment, offerings, policy);
    lo, hi := Extremes(items);
    AverageBetweenGridBounds(items, policy, items[lo].value, items[hi].value);
  }

  /** When no subject asks for less than the overall mark, a complete student who passes
      every subject passes the term, whatever the weights and the rounding mode. */
  lemma PassingEverySubjectPassesTheTerm(scores: seq<Score>, enrollment: nat, offerings: seq<Offering>,
                                         policy: Policy, rank: Option<nat>)
    requires ValidScores(scores) && ValidOfferings(offerings)
    requires forall i :: 0 <= i < |offerings| ==> policy.overallPassMark <= offerings[i].passMark
    ensures TermOutcome(scores, enrollment, offerings, policy, rank).passed
       <==> Complete(scores, enrollment, offerings, policy) && PassedAll(scores, enrollment, offerings, policy)
  {
    if Complete(scores, enrollment, offerings, policy) && PassedAll(scores, enrollment, offerings, policy) {
      var items := TermItems(scores, enrollment, offerings, policy);
      TermItemsComeFromSubjects(scores, enrollment, offerings, policy);
      var lo, hi := TermAverageBetweenSubjects(scores, enrollment, offerings, policy);
      var i :| 0 <= i < |offerings|
               && SubjectOutcome(scores, enrollment, offerings[i], policy).average == Some(items[lo].value);
      assert SubjectOutcome(scores, enrollment, offerings[i], policy).passed;
    }
  }

  // ---------------------------------------------------------------- the tables

  datatype Enrollment = Enrollment(classSection: nat, enrolledOn: int, leftOn: Option<int>, deleted: bool,
                                   policy: Policy)

  datatype Term = Term(id: nat, startsOn: int, endsOn: int)

  /** Enrolled at some time during the term. */
  predicate OnRoster(e: Enrollment, classSection: nat, term: Term) {
    && e.classSection == classSection && e.enrolledOn <= term.endsOn && !e.deleted
    && (e.leftOn == None || e.leftOn.value >= term.startsOn)
  }

  /** The active offerings of a class in a term. */
  function OfferingsOf(offerings: seq<Offering>, classSection: nat, term: nat): (r: seq<Offering>)
    ensures ValidOfferings(offerings) ==> ValidOfferings(r)
    ensures forall o :: o in r ==> o in offerings
  {
    if offerings == [] then []
    else
      var front := OfferingsOf(offerings[..|offerings| - 1], classSection, term);
      var last := offerings[|offerings| - 1];
      if last.classSection == classSection && last.term == term && last.active then front + [last] else front
  }

  predicate DistinctIds(offerings: seq<Offering>) {
    forall i, j :: 0 <= i < j < |offerings| ==> offerings[i].id != offerings[j].id
  }

  lemma {:induction false} OfferingsStayDistinct(offerings: seq<Offering>, classSection: nat, term: nat)
    requires DistinctIds(offerings)
    ensures DistinctIds(OfferingsOf(offerings, classSection, term))
  {
    if offerings != [] {
      var front := offerings[..|offerings| - 1];
      OfferingsStayDistinct(front, classSection, term);
      var r := OfferingsOf(front, classSection, term);
      forall i | 0 <= i < |r| ensures r[i].id != offerings[|offerings| - 1].id {
        assert r[i] in front;
        var k :| 0 <= k < |front| && front[k] == r[i];
        assert offerings[k] == r[i];
      }
    }
  }

  /** The term average of an enrollment of the given tables. */
  function AverageOf(scores: seq<Score>, offerings: seq<Offering>, enrollments: map<nat, Enrollment>,
                     id: nat, term: nat): Option<real>
    requires ValidScores(scores) && id in enrollments
  {
    var e := enrollments[id];
    RoundedAverage(TermItems(scores, id, OfferingsOf(offerings, e.classSection, term), e.policy), e.policy)
  }

  /** The averages of a roster, in roster order. */
  ghost function AveragesOf(scores: seq<Score>, offerings: seq<Offering>, enrollments: map<nat, Enrollment>,
                            roster: seq<nat>, term: nat): seq<Option<real>>
    requires ValidScores(scores) && forall i :: 0 <= i < |roster| ==> roster[i] in enrollments
  {
    seq(|roster|, i requires 0 <= i < |roster| => AverageOf(scores, offerings, enrollments, roster[i], term))
  }

  lemma AveragesStep(scores: seq<Score>, offerings: seq<Offering>, enrollments: map<nat, Enrollment>,
                     roster: seq<nat>, i: nat, term: nat)
    requires ValidScores(scores) && i < |roster| && forall j :: 0 <= j < |roster| ==> roster[j] in enrollments
    ensures AveragesOf(scores, offerings, enrollments, roster[..i + 1], term)
         == AveragesOf(scores, offerings, enrollments, roster[..i], term) + [AverageOf(scores, offerings, enrollments, roster[i], term)]
    ensures forall j :: 0 <= j < i && roster[j] == roster[i]
              ==> AveragesOf(scores, offerings, enrollments, roster[..i], term)[j] == AverageOf(scores, offerings, enrollments, roster[i], term)
  {
  }

  /** The values that occur, each counted once. */
  ghost function Distinct(averages: seq<Option<real>>): set<real> {
    set a | a in averages && a.Some? :: a.value
  }

  /** Every enrollment of the roster has a result with its average. */
  predicate HoldsAverages(results: map<(nat, nat), TermResult>, roster: seq<nat>, term: nat, averages: seq<Option<real>>)
    requires |averages| == |roster|
  {
    forall i :: 0 <= i < |roster| ==> (roster[i], term) in results && results[(roster[i], term)].average == averages[i]
  }

  /** Results of other enrollments or terms are neither changed nor added. */
  predicate OnlyRosterChanges(before: map<(nat, nat), TermResult>, after: map<(nat, nat), TermResult>, roster: seq<nat>, term: nat) {
    && (forall k :: k in after ==> k in before || (k.1 == term && k.0 in roster))
    && (forall k :: k in before && (k.1 != term || k.0 !in roster) ==> k in after && after[k] == before[k])
  }

  lemma OneMoreAveraged(start: map<(nat, nat), TermResult>, before: map<(nat, nat), TermResult>, after: map<(nat, nat), TermResult>,
                        roster: seq<nat>, i: nat, term: nat, averages: seq<Option<real>>)
    requires i < |roster| && |averages| == i + 1
    requires HoldsAverages(before, roster[..i], term, averages[..i]) && OnlyRosterChanges(start, before, roster, term)
    requires (roster[i], term) in after && after[(roster[i], term)].average == averages[i]
    requires after == before[(roster[i], term) := after[(roster[i], term)]]
    requires forall j :: 0 <= j < i && roster[j] == roster[i] ==> averages[j] == averages[i]
    ensures HoldsAverages(after, roster[..i + 1], term, averages) && OnlyRosterChanges(start, after, roster, term)
  {
    forall j | 0 <= j < i ensures (roster[j], term) in after && after[(roster[j], term)].average == averages[j] {
      assert roster[..i][j] == roster[j] && averages[..i][j] == averages[j];
    }
  }

  predicate AllAveraged(rows: seq<SubjectResult>) {
    forall i :: 0 <= i < |rows| ==> rows[i].average.Some?
  }

  predicate AllPassed(rows: seq<SubjectResult>) {
    forall i :: 0 <= i < |rows| ==> rows[i].passed
  }

  lemma RowsDecide(scores: seq<Score>, enrollment: nat, chosen: seq<Offering>, policy: Policy, rows: seq<SubjectResult>)
    requires ValidScores(scores) && |rows| == |chosen|
    requires forall i :: 0 <= i < |chosen| ==> rows[i] == SubjectOutcome(scores, enrollment, chosen[i], policy)
    ensures rows != [] && AllAveraged(rows) <==> Complete(scores, enrollment, chosen, policy)
    ensures AllPassed(rows) <==> PassedAll(scores, enrollment, chosen, policy)
  {
    forall i | 0 <= i < |chosen|
      ensures rows[i].average.Some? == SubjectOutcome(scores, enrollment, chosen[i], policy).average.Some?
      ensures rows[i].passed == SubjectOutcome(scores, enrollment, chosen[i], policy).passed
    {
    }
  }

  /** The subject results that recomputing an enrollment over `chosen` writes. */
  predicate Rewrites(enrollment: nat, chosen: seq<Offering>, key: (nat, nat)) {
    key.0 == enrollment && exists i :: 0 <= i < |chosen| && chosen[i].id == key.1
  }

  /** The results that have an average, as entries to be ranked. */
  function Averaged(roster: seq<nat>, averages: seq<Option<real>>): (r: seq<R.Entry<nat>>)
    requires |roster| == |averages|
    ensures forall e :: e in r <==> exists i :: 0 <= i < |roster| && averages[i] == Some(e.score) && roster[i] == e.key
  {
    if roster == [] then []
    else
      var n := |roster| - 1;
      var front := Averaged(roster[..n], averages[..n]);
      if averages[n].Some? then front + [R.Entry(roster[n], averages[n].value)] else front
  }

  /** The stored rank: none without an average, the dense rank otherwise. */
  function RankAmong(averages: set<real>, average: Option<real>): Option<nat> {
    if average.Some? then Some(R.DenseRank(averages, average.value)) else None
  }

  ghost predicate Ranked(ranked: seq<R.Entry<nat>>, enrollment: nat) {
    exists i :: 0 <= i < |ranked| && ranked[i].key == enrollment
  }

  lemma AveragedHas(roster: seq<nat>, averages: seq<Option<real>>, i: nat) returns (k: nat)
    requires |averages| == |roster| && i < |roster| && averages[i].Some?
    ensures k < |Averaged(roster, averages)|
    ensures Averaged(roster, averages)[k] == R.Entry(roster[i], averages[i].value)
  {
    assert R.Entry(roster[i], averages[i].value) in Averaged(roster, averages);
    k :| 0 <= k < |Averaged(roster, averages)|
         && Averaged(roster, averages)[k] == R.Entry(roster[i], averages[i].value);
  }

  lemma AveragedFrom(roster: seq<nat>, averages: seq<Option<real>>, k: nat) returns (i: nat)
    requires |averages| == |roster| && k < |Averaged(roster, averages)|
    ensures i < |roster| && averages[i].Some?
    ensures Averaged(roster, averages)[k] == R.Entry(roster[i], averages[i].value)
  {
    var e := Averaged(roster, averages)[k];
    assert e in Averaged(roster, averages);
    i :| 0 <= i < |roster| && averages[i] == Some(e.score) && roster[i] == e.key;
  }

  lemma {:induction false} AveragedIsDistinct(roster: seq<nat>, averages: seq<Option<real>>)
    requires |roster| == |averages|
    requires forall i, j :: 0 <= i < j < |roster| ==> roster[i] != roster[j]
    ensures R.DistinctKeys(Averaged(roster, averages))
  {
    if roster != [] {
      var n := |roster| - 1;
      AveragedIsDistinct(roster[..n], averages[..n]);
      var front := Averaged(roster[..n], averages[..n]);
      forall i | 0 <= i < |front| ensures front[i].key != roster[n] {
        assert front[i] in front;
      }
    }
  }

  lemma ScoresAreAverages(roster: seq<nat>, averages: seq<Option<real>>)
    requires |roster| == |averages|
    ensures forall s :: s in R.Scores(Averaged(roster, averages)) <==> exists i :: 0 <= i < |roster| && averages[i] == Some(s)
  {
    var entries := Averaged(roster, averages);
    forall s | exists i :: 0 <= i < |roster| && averages[i] == Some(s) ensures s in R.Scores(entries) {
      var i :| 0 <= i < |roster| && averages[i] == Some(s);
      assert R.Entry(roster[i], s) in entries;
    }
  }

  /** A roster position is ranked, with its own average, exactly when it has one. */
  lemma RankedIffAveraged(roster: seq<nat>, averages: seq<Option<real>>, i: nat)
    requires |averages| == |roster| && i < |roster|
    requires forall i, j :: 0 <= i < j < |roster| ==> roster[i] != roster[j]
    ensures var ranked := R.SortByScore(Averaged(roster, averages));
            && (averages[i].Some? ==> Ranked(ranked, roster[i]))
            && (forall j :: 0 <= j < |ranked| && ranked[j].key == roster[i] ==> averages[i] == Some(ranked[j].score))
  {
    var entries := Averaged(roster, averages);
    var ranked := R.SortByScore(entries);
    if averages[i].Some? {
      var k := AveragedHas(roster, averages, i);
      var j := R.SortedPosition(entries, k);
    }
    forall j | 0 <= j < |ranked| && ranked[j].key == roster[i] ensures averages[i] == Some(ranked[j].score) {
      var k := R.UnsortedPosition(entries, j);
      var origin := AveragedFrom(roster, averages, k);
    }
  }

  lemma RankedComesFromRoster(roster: seq<nat>, averages: seq<Option<real>>)
    requires |averages| == |roster|
    requires forall i, j :: 0 <= i < j < |roster| ==> roster[i] != roster[j]
    ensures var ranked := R.SortByScore(Averaged(roster, averages));
            && R.DistinctKeys(ranked)
            && R.Scores(ranked) == Distinct(averages)
            && (forall j :: 0 <= j < |ranked| ==> ranked[j].key in roster)
  {
    var entries := Averaged(roster, averages);
    var ranked := R.SortByScore(entries);
    AveragedIsDistinct(roster, averages);
    R.SortKeepsEntries(entries);
    ScoresAreAverages(roster, averages);
    forall s ensures s in R.Scores(entries) <==> s in Distinct(averages) {
      if s in Distinct(averages) {
        assert Some(s) in averages;
      }
    }
    forall j | 0 <= j < |ranked| ensures ranked[j].key in roster {
      var i := R.UnsortedPosition(entries, j);
      assert entries[i] in entries;
    }
  }

  class Gradebook {
    var scores: seq<Score>
    var offerings: seq<Offering>
    var enrollments: map<nat, Enrollment>
    /** Keyed by enrollment and offering, and by enrollment and term. */
    var subjectResults: map<(nat, nat), SubjectResult>
    var termResults: map<(nat, nat), TermResult>

    predicate Valid()
      reads this
    {
      && ValidScores(scores) && ValidOfferings(offerings)
      && DistinctIds(offerings)
      && (forall k :: k in termResults ==> k.0 in enrollments)
    }

    function StoredRank(enrollment: nat, term: nat): Option<nat>
      reads this
    {
      if (enrollment, term) in termResults then termResults[(enrollment, term)].classRank else None
    }

    /** The two sums of one offering, accumulated score by score. */
    method AccumulateScores(enrollment: nat, offering: nat, policy: Policy)
      returns (numerator: real, denominator: real)
      requires Valid()
      ensures numerator == ProductSum(SubjectItems(scores, enrollment, offering, policy))
      ensures denominator == WeightSum(SubjectItems(scores, enrollment, offering, policy))
    {
      numerator, denominator := 0.0, 0.0;
      for i := 0 to |scores|
        invariant numerator == ProductSum(SubjectItems(scores[..i], enrollment, offering, policy))
        invariant denominator == WeightSum(SubjectItems(scores[..i], enrollment, offering, policy))
      {
        SubjectItemsStep(scores, enrollment, offering, i, policy);
        var score := scores[i];
        if Counts(score, enrollment, offering) {
          var normalized := NormalizedScore(score, policy);
          if normalized.Some? {
            numerator := numerator + normalized.value * score.weight;
            denominator := denominator + score.weight;
          }
        }
      }
      assert scores[..|scores|] == scores;
    }

    /** The result of one offering. */
    method AverageSubject(enrollment: nat, offering: Offering, policy: Policy) returns (result: SubjectResult)
      requires Valid()
      ensures result == SubjectOutcome(scores, enrollment, offering, policy)
    {
      var numerator, denominator := AccumulateScores(enrollment, offering.id, policy);
      var average := if denominator != 0.0
                     then Some(Quantize(numerator / denominator, policy.roundingMode, policy.decimalPlaces))
                     else None;
      result := SubjectResult(average, average.Some? && average.value >= offering.passMark, policy.version);
    }

    /** The first loop of a recalculation: every subject result is computed and stored. */
    method StoreSubjects(enrollment: nat, chosen: seq<Offering>, policy: Policy) returns (rows: seq<SubjectResult>)
      requires Valid()
      requires DistinctIds(chosen)
      modifies this`subjectResults
      ensures Valid()
      ensures |rows| == |chosen|
      ensures forall i :: 0 <= i < |chosen| ==> rows[i] == SubjectOutcome(scores, enrollment, chosen[i], policy)
      ensures forall i :: 0 <= i < |chosen| ==>
                (enrollment, chosen[i].id) in subjectResults && subjectResults[(enrollment, chosen[i].id)] == rows[i]
      ensures forall k :: k in old(subjectResults) && !Rewrites(enrollment, chosen, k)
                ==> k in subjectResults && subjectResults[k] == old(subjectResults)[k]
      ensures forall k :: k in subjectResults ==> k in old(subjectResults) || Rewrites(enrollment, chosen, k)
    {
      rows := [];
      for i := 0 to |chosen|
        invariant |rows| == i
        invariant forall j :: 0 <= j < i ==> rows[j] == SubjectOutcome(scores, enrollment, chosen[j], policy)
        invariant forall j :: 0 <= j < i ==>
                    (enrollment, chosen[j].id) in subjectResults && subjectResults[(enrollment, chosen[j].id)] == rows[j]
        invariant forall k :: k in old(subjectResults) && !Rewrites(enrollment, chosen, k)
                    ==> k in subjectResults && subjectResults[k] == old(subjectResults)[k]
        invariant forall k :: k in subjectResults ==> k in old(subjectResults) || Rewrites(enrollment, chosen, k)
      {
        var row := AverageSubject(enrollment, chosen[i], policy);
        subjectResults := subjectResults[(enrollment, chosen[i].id) := row];
        rows := rows + [row];
      }
    }

    /** The second loop: the two sums over the subjects that have an average. */
    method SumRows(enrollment: nat, chosen: seq<Offering>, policy: Policy, rows: seq<SubjectResult>)
      returns (weightedSum: real, coefficientSum: real)
      requires Valid() && |rows| == |chosen|
      requires forall i :: 0 <= i < |chosen| ==> rows[i] == SubjectOutcome(scores, enrollment, chosen[i], policy)
      ensures weightedSum == ProductSum(TermItems(scores, enrollment, chosen, policy))
      ensures coefficientSum == WeightSum(TermItems(scores, enrollment, chosen, policy))
    {
      weightedSum, coefficientSum := 0.0, 0.0;
      for i := 0 to |chosen|
        invariant SumsAre(weightedSum, coefficientSum, TermItems(scores, enrollment, chosen[..i], policy))
      {
        var row, coefficient := rows[i], chosen[i].coefficient;
        RowGrows(scores, enrollment, chosen, i, policy, row);
        SumsGrow(TermItems(scores, enrollment, chosen[..i], policy), row.average, coefficient,
                 TermItems(scores, enrollment, chosen[..i + 1], policy), weightedSum, coefficientSum);
        if row.average.Some? {
          weightedSum := weightedSum + row.average.value * coefficient;
          coefficientSum := coefficientSum + coefficient;
        }
      }
      assert chosen[..|chosen|] == chosen;
    }

    /** The weighted average of the subjects, rounded. */
    method AverageRows(enrollment: nat, chosen: seq<Offering>, policy: Policy, rows: seq<SubjectResult>)
      returns (average: Option<real>)
      requires Valid() && |rows| == |chosen|
      requires forall i :: 0 <= i < |chosen| ==> rows[i] == SubjectOutcome(scores, enrollment, chosen[i], policy)
      ensures average == RoundedAverage(TermItems(scores, enrollment, chosen, policy), policy)
    {
      var weightedSum, coefficientSum := SumRows(enrollment, chosen, policy, rows);
      average := if coefficientSum != 0.0
                 then Some(Quantize(weightedSum / coefficientSum, policy.roundingMode, policy.decimalPlaces))
                 else None;
    }

    /** Recomputes one enrollment for one term and stores every result. */
    method CalculateEnrollmentTerm(enrollment: nat, term: nat) returns (result: TermResult)
      requires Valid() && enrollment in enrollments
      modifies this`subjectResults, this`termResults
      ensures Valid()
      ensures var e := enrollments[enrollment];
              var chosen := OfferingsOf(offerings, e.classSection, term);
              && result == TermOutcome(scores, enrollment, chosen, e.policy, old(StoredRank(enrollment, term)))
              && termResults == old(termResults)[(enrollment, term) := result]
              && (forall i :: 0 <= i < |chosen| ==>
                    && (enrollment, chosen[i].id) in subjectResults
                    && subjectResults[(enrollment, chosen[i].id)]
                         == SubjectOutcome(scores, enrollment, chosen[i], e.policy))
              && (forall k :: k in old(subjectResults) && !Rewrites(enrollment, chosen, k)
                    ==> k in subjectResults && subjectResults[k] == old(subjectResults)[k])
              && (forall k :: k in subjectResults ==> k in old(subjectResults) || Rewrites(enrollment, chosen, k))
    {
      var policy := enrollments[enrollment].policy;
      var chosen := OfferingsOf(offerings, enrollments[enrollment].classSection, term);
      OfferingsStayDistinct(offerings, enrollments[enrollment].classSection, term);
      var rows := StoreSubjects(enrollment, chosen, policy);
      var average := AverageRows(enrollment, chosen, policy, rows);
      RowsDecide(scores, enrollment, chosen, policy, rows);
      var complete := rows != [] && AllAveraged(rows);
      var passed := && complete
                    && average.Some? && average.value >= policy.overallPassMark
                    && AllPassed(rows);
      result := TermResult(average, passed, policy.version, StoredRank(enrollment, term));
      termResults := termResults[(enrollment, term) := result];
    }

    /** The effect of one recalculation on the term results alone. */
    method UpdateTermResult(enrollment: nat, term: nat) returns (average: Option<real>)
      requires Valid() && enrollment in enrollments
      modifies this`subjectResults, this`termResults
      ensures Valid()
      ensures average == AverageOf(scores, offerings, enrollments, enrollment, term)
      ensures (enrollment, term) in termResults && termResults[(enrollment, term)].average == average
      ensures termResults == old(termResults)[(enrollment, term) := termResults[(enrollment, term)]]
    {
      var result := CalculateEnrollmentTerm(enrollment, term);
      average := result.average;
    }

    /** Recomputes every enrollment of the roster; the ranks stored before are still there. */
    method CalculateRoster(roster: seq<nat>, term: nat) returns (averages: seq<Option<real>>)
      requires Valid() && forall i :: 0 <= i < |roster| ==> roster[i] in enrollments
      modifies this`subjectResults, this`termResults
      ensures Valid()
      ensures averages == AveragesOf(scores, offerings, enrollments, roster, term)
      ensures HoldsAverages(termResults, roster, term, averages)
      ensures OnlyRosterChanges(old(termResults), termResults, roster, term)
    {
      averages := [];
      for i := 0 to |roster|
        invariant Valid() && averages == AveragesOf(scores, offerings, enrollments, roster[..i], term)
        invariant HoldsAverages(termResults, roster[..i], term, averages)
        invariant OnlyRosterChanges(old(termResults), termResults, roster, term)
      {
        ghost var before := termResults;
        var average := UpdateTermResult(roster[i], term);
        AveragesStep(scores, offerings, enrollments, roster, i, term);
        averages := averages + [average];
        OneMoreAveraged(old(termResults), before, termResults, roster, i, term, averages);
      }
      assert roster[..|roster|] == roster;
    }

    /** One bulk update: no stored rank of the class and term survives. */
    method ClearRanks(classSection: nat, term: nat)
      requires Valid()
      modifies this`termResults
      ensures Valid()
      ensures termResults.Keys == old(termResults).Keys
      ensures forall k :: k in termResults ==>
                termResults[k] == if k.1 == term && enrollments[k.0].classSection == classSection
                                  then old(termResults)[k].(classRank := None) else old(termResults)[k]
    {
      termResults := map k | k in termResults ::
        if k.1 == term && enrollments[k.0].classSection == classSection
        then termResults[k].(classRank := None) else termResults[k];
    }

    /** Writes the rank of every ranked result. */
    method StoreRanks(term: nat, ranked: seq<R.Entry<nat>>, ranks: seq<nat>)
      requires Valid() && |ranks| == |ranked| && R.DistinctKeys(ranked)
      requires forall i :: 0 <= i < |ranked| ==> (ranked[i].key, term) in termResults
      modifies this`termResults
      ensures Valid()
      ensures termResults.Keys == old(termResults).Keys
      ensures forall i :: 0 <= i < |ranked| ==>
                termResults[(ranked[i].key, term)] == old(termResults)[(ranked[i].key, term)].(classRank := Some(ranks[i]))
      ensures forall k :: k in termResults && (k.1 != term || !Ranked(ranked, k.0)) ==> termResults[k] == old(termResults)[k]
    {
      for i := 0 to |ranked|
        invariant termResults.Keys == old(termResults).Keys
        invariant forall j :: 0 <= j < i ==>
                    termResults[(ranked[j].key, term)] == old(termResults)[(ranked[j].key, term)].(classRank := Some(ranks[j]))
        invariant forall j :: i <= j < |ranked| ==>
                    termResults[(ranked[j].key, term)] == old(termResults)[(ranked[j].key, term)]
        invariant forall k :: k in termResults && (k.1 != term || !Ranked(ranked, k.0)) ==> termResults[k] == old(termResults)[k]
      {
        var key := (ranked[i].key, term);
        termResults := termResults[key := termResults[key].(classRank := Some(ranks[i]))];
      }
    }

    /** The ranking part: old ranks of the class and term go, the roster is ranked. */
    method RankRoster(classSection: nat, term: nat, roster: seq<nat>, averages: seq<Option<real>>)
      requires Valid() && |averages| == |roster|
      requires forall i, j :: 0 <= i < j < |roster| ==> roster[i] != roster[j]
      requires forall i :: 0 <= i < |roster| ==>
                 && (roster[i], term) in termResults && enrollments[roster[i]].classSection == classSection
      modifies this`termResults
      ensures Valid()
      ensures termResults.Keys == old(termResults).Keys
      ensures forall i :: 0 <= i < |roster| ==>
                termResults[(roster[i], term)]
                  == old(termResults)[(roster[i], term)].(classRank := RankAmong(Distinct(averages), averages[i]))
      ensures forall k :: k in termResults && k.1 == term && k.0 !in roster && enrollments[k.0].classSection == classSection
                ==> termResults[k] == old(termResults)[k].(classRank := None)
      ensures forall k :: k in termResults && (k.1 != term || enrollments[k.0].classSection != classSection)
                ==> termResults[k] == old(termResults)[k]
    {
      ClearRanks(classSection, term);
      var ranked := R.SortByScore(Averaged(roster, averages));
      var ranks := R.AssignDenseRanks(ranked);
      RankedComesFromRoster(roster, averages);
      StoreRanks(term, ranked, ranks);
      forall i | 0 <= i < |roster|
        ensures termResults[(roster[i], term)]
             == old(termResults)[(roster[i], term)].(classRank := RankAmong(Distinct(averages), averages[i]))
      {
        RankedIffAveraged(roster, averages, i);
      }
    }

    /** Averages, then ranks: every result of the roster gets the dense rank of its average
        (none without an average), and old ranks of the class and term are gone. */
    method RecalculateClassTerm(classSection: nat, term: Term, roster: seq<nat>)
      requires Valid()
      requires forall i, j :: 0 <= i < j < |roster| ==> roster[i] != roster[j]
      requires forall e :: e in roster <==> e in enrollments && OnRoster(enrollments[e], classSection, term)
      modifies this`subjectResults, this`termResults
      ensures Valid()
      ensures var averages := AveragesOf(scores, offerings, enrollments, roster, term.id);
              forall i :: 0 <= i < |roster| ==>
                && (roster[i], term.id) in termResults
                && termResults[(roster[i], term.id)].average == averages[i]
                && termResults[(roster[i], term.id)].classRank == RankAmong(Distinct(averages), averages[i])
      ensures forall k :: k in old(termResults) && k.1 == term.id && k.0 !in roster
                          && enrollments[k.0].classSection == classSection
                ==> k in termResults && termResults[k] == old(termResults)[k].(classRank := None)
      ensures forall k :: k in old(termResults) && (k.1 != term.id || enrollments[k.0].classSection != classSection)
                ==> k in termResults && termResults[k] == old(termResults)[k]
    {
      var averages := CalculateRoster(roster, term.id);
      RankRoster(classSection, term.id, roster, averages);
    }
  }
}
