/** What the stored grades are, said of the scores themselves: which scores take part, the
    average as the value about which the weighted scores balance, the pass decisions, and
    who is ranked before whom. */
module GradeLaws {
  import opened Options
  import opened Averages
  import opened Rounding
  import opened Grades
  import R = Ranking

  // ---------------------------------------------------------------- one subject

  /** A released score of the enrollment in the offering that stands for a value. */
  predicate TakesPart(s: Score, enrollment: nat, offering: nat, absentIsZero: bool) {
    && s.enrollment == enrollment && s.offering == offering
    && (s.assessmentStatus.Approved? || s.assessmentStatus.Locked?)
    && (s.status.Present? || (s.status.UnexcusedAbsent? && absentIsZero))
  }

  /** What a score stands for on the scale from 0 to 20. */
  function OnScale(s: Score): real
    requires s.Valid()
  {
    if s.status.Present? then s.value / s.maxScore * 20.0 else 0.0
  }

  /** The weighted deviations from `a` of the scores that take part. */
  function Balance(scores: seq<Score>, enrollment: nat, offering: nat, absentIsZero: bool, a: real): real
    requires ValidScores(scores)
  {
    if scores == [] then 0.0
    else
      var last := scores[|scores| - 1];
      Balance(scores[..|scores| - 1], enrollment, offering, absentIsZero, a)
      + if TakesPart(last, enrollment, offering, absentIsZero) then Pull(OnScale(last), last.weight, a) else 0.0
  }

  /** A present score keeps its share of the maximum, an unexcused absence counts as zero
      where the policy says so, and nothing else has a value. */
  lemma NormalizedScoreExactly(score: Score, policy: Policy)
    requires score.Valid()
    ensures var n := NormalizedScore(score, policy);
            && (n.Some? <==> score.status.Present? || (score.status.UnexcusedAbsent? && policy.unexcusedAbsenceAsZero))
            && (score.status.Present? ==> n.value * score.maxScore == score.value * 20.0)
            && (score.status.UnexcusedAbsent? && n.Some? ==> n.value == 0.0)
  {
    if score.status.Present? {
      DivideUndoesMultiply(score.value * 20.0, score.maxScore);
    }
  }

  lemma NormalizedIsOnScale(score: Score, policy: Policy)
    requires score.Valid()
    ensures var n := NormalizedScore(score, policy); n.Some? ==> n.value == OnScale(score)
  {
    NormalizedScoreExactly(score, policy);
    if score.status.Present? {
      var n := NormalizedScore(score, policy).value;
      assert OnScale(score) == (score.value / score.maxScore) * 20.0;
      DivideUndoesMultiply(score.value, score.maxScore);
      SameProduct(n, OnScale(score), score.maxScore);
    }
  }

  lemma SameProduct(x: real, y: real, scale: real)
    requires scale > 0.0 && x * scale == y * scale
    ensures x == y
  {
    DivideUndoesMultiply(x, scale);
    DivideUndoesMultiply(y, scale);
  }

  lemma SubjectItemsGrow(scores: seq<Score>, enrollment: nat, offering: nat, policy: Policy)
    requires ValidScores(scores) && scores != []
    ensures var last := scores[|scores| - 1];
            SubjectItems(scores, enrollment, offering, policy)
            == SubjectItems(scores[..|scores| - 1], enrollment, offering, policy)
               + if TakesPart(last, enrollment, offering, policy.unexcusedAbsenceAsZero)
                 then [Weighted(OnScale(last), last.weight)] else []
  {
    var last := scores[|scores| - 1];
    NormalizedScoreExactly(last, policy);
    NormalizedIsOnScale(last, policy);
  }

  lemma {:induction false} BalanceOfItems(scores: seq<Score>, enrollment: nat, offering: nat, policy: Policy, a: real)
    requires ValidScores(scores)
    ensures Balance(scores, enrollment, offering, policy.unexcusedAbsenceAsZero, a)
         == Excess(SubjectItems(scores, enrollment, offering, policy), a)
  {
    if scores != [] {
      var front, last := scores[..|scores| - 1], scores[|scores| - 1];
      BalanceOfItems(front, enrollment, offering, policy, a);
      SubjectItemsGrow(scores, enrollment, offering, policy);
      if TakesPart(last, enrollment, offering, policy.unexcusedAbsenceAsZero) {
        ExcessGrows(SubjectItems(front, enrollment, offering, policy), Weighted(OnScale(last), last.weight), a);
      }
    }
  }

  lemma {:induction false} ItemsOfSomeScore(scores: seq<Score>, enrollment: nat, offering: nat, policy: Policy)
    requires ValidScores(scores)
    ensures SubjectItems(scores, enrollment, offering, policy) == []
       <==> forall i :: 0 <= i < |scores| ==> !TakesPart(scores[i], enrollment, offering, policy.unexcusedAbsenceAsZero)
  {
    if scores != [] {
      ItemsOfSomeScore(scores[..|scores| - 1], enrollment, offering, policy);
      SubjectItemsGrow(scores, enrollment, offering, policy);
    }
  }

  /** A subject has an average exactly when some score takes part; it is the value about
      which the weighted scores balance, rounded; and it decides whether the subject is passed. */
  lemma SubjectAverageBalances(scores: seq<Score>, enrollment: nat, offering: Offering, policy: Policy)
    returns (a: real)
    requires ValidScores(scores)
    ensures var r := SubjectOutcome(scores, enrollment, offering, policy);
            && (r.average.None? <==> forall i :: 0 <= i < |scores| ==>
                  !TakesPart(scores[i], enrollment, offering.id, policy.unexcusedAbsenceAsZero))
            && (r.average.Some? ==>
                  && Balance(scores, enrollment, offering.id, policy.unexcusedAbsenceAsZero, a) == 0.0
                  && r.average.value == Quantize(a, policy.roundingMode, policy.decimalPlaces))
            && (r.passed <==> r.average.Some? && offering.passMark <= r.average.value)
            && r.formulaVersion == policy.version
  {
    var items := SubjectItems(scores, enrollment, offering.id, policy);
    SubjectItemsInRange(scores, enrollment, offering.id, policy);
    a := 0.0;
    if items != [] {
      MeanBalances(items);
      a := ProductSum(items) / WeightSum(items);
    }
    BalanceOfItems(scores, enrollment, offering.id, policy, a);
    ItemsOfSomeScore(scores, enrollment, offering.id, policy);
  }

  /** There is no second value about which they balance. */
  lemma BalancePointIsUnique(scores: seq<Score>, enrollment: nat, offering: nat, policy: Policy, a: real, b: real)
    requires ValidScores(scores)
    requires exists i :: 0 <= i < |scores| && TakesPart(scores[i], enrollment, offering, policy.unexcusedAbsenceAsZero)
    requires Balance(scores, enrollment, offering, policy.unexcusedAbsenceAsZero, a) == 0.0
    requires Balance(scores, enrollment, offering, policy.unexcusedAbsenceAsZero, b) == 0.0
    ensures a == b
  {
    var items := SubjectItems(scores, enrollment, offering, policy);
    BalanceOfItems(scores, enrollment, offering, policy, a);
    BalanceOfItems(scores, enrollment, offering, policy, b);
    SubjectItemsInRange(scores, enrollment, offering, policy);
    ItemsOfSomeScore(scores, enrollment, offering, policy);
    MeanBalances(items);
    SameProduct(a, b, WeightSum(items));
  }

  lemma {:induction false} NothingBalances(scores: seq<Score>, enrollment: nat, offering: nat, absentIsZero: bool, a: real)
    requires ValidScores(scores)
    requires forall i :: 0 <= i < |scores| ==> !TakesPart(scores[i], enrollment, offering, absentIsZero)
    ensures Balance(scores, enrollment, offering, absentIsZero, a) == 0.0
  {
    if scores != [] {
      NothingBalances(scores[..|scores| - 1], enrollment, offering, absentIsZero, a);
    }
  }

  lemma {:induction false} BalanceOfOne(scores: seq<Score>, k: nat, enrollment: nat, offering: nat, absentIsZero: bool, a: real)
    requires ValidScores(scores) && k < |scores|
    requires forall i :: 0 <= i < |scores| ==> (TakesPart(scores[i], enrollment, offering, absentIsZero) <==> i == k)
    ensures Balance(scores, enrollment, offering, absentIsZero, a) == scores[k].weight * (OnScale(scores[k]) - a)
  {
    var n := |scores| - 1;
    if k == n {
      NothingBalances(scores[..n], enrollment, offering, absentIsZero, a);
    } else {
      BalanceOfOne(scores[..n], k, enrollment, offering, absentIsZero, a);
    }
  }

  /** A subject with one score that takes part has that score as its average, brought to the
      scale of 20 and rounded, whatever its weight: 18 of 20 is 18, 9 of 10 is 18. */
  lemma AverageOfOneScore(scores: seq<Score>, k: nat, enrollment: nat, offering: Offering, policy: Policy)
    requires ValidScores(scores) && k < |scores|
    requires forall i :: 0 <= i < |scores| ==>
               (TakesPart(scores[i], enrollment, offering.id, policy.unexcusedAbsenceAsZero) <==> i == k)
    ensures SubjectOutcome(scores, enrollment, offering, policy).average
         == Some(Quantize(if scores[k].status.Present? then scores[k].value * 20.0 / scores[k].maxScore else 0.0,
                          policy.roundingMode, policy.decimalPlaces))
  {
    assert TakesPart(scores[k], enrollment, offering.id, policy.unexcusedAbsenceAsZero);
    var a := SubjectAverageBalances(scores, enrollment, offering, policy);
    BalanceOfOne(scores, k, enrollment, offering.id, policy.unexcusedAbsenceAsZero, a);
    ZeroFactor(scores[k].weight, OnScale(scores[k]) - a);
    NormalizedIsOnScale(scores[k], policy);
  }

  lemma ZeroFactor(weight: real, x: real)
    requires weight > 0.0 && weight * x == 0.0
    ensures x == 0.0
  {
  }

  /** The same weights, and no value lower. */
  predicate Raised(before: seq<Weighted>, after: seq<Weighted>) {
    && |after| == |before|
    && forall i :: 0 <= i < |before| ==> after[i].weight == before[i].weight && before[i].value <= after[i].value
  }

  lemma {:induction false} RaisedSums(before: seq<Weighted>, after: seq<Weighted>)
    requires Raised(before, after) && PositiveWeights(before)
    ensures WeightSum(after) == WeightSum(before) && ProductSum(before) <= ProductSum(after)
  {
    if before != [] {
      var n := |before| - 1;
      RaisedSums(before[..n], after[..n]);
      LastIsAdded(before);
      LastIsAdded(after);
      MultiplyKeepsOrder(before[n].value, after[n].value, before[n].weight);
    }
  }

  lemma HigherOnScale(s: Score, value: real)
    requires s.Valid() && s.status.Present? && s.value <= value <= s.maxScore
    ensures OnScale(s) <= OnScale(s.(value := value))
  {
    DivideKeepsOrder(s.value, value, s.maxScore);
  }

  lemma {:induction false} RaisedItems(scores: seq<Score>, raised: seq<Score>, k: nat, enrollment: nat, offering: nat, policy: Policy)
    requires ValidScores(scores) && k < |scores| && |raised| == |scores|
    requires scores[k].status.Present? && scores[k].value <= raised[k].value <= scores[k].maxScore
    requires raised[k] == scores[k].(value := raised[k].value)
    requires forall i :: 0 <= i < |scores| && i != k ==> raised[i] == scores[i]
    ensures ValidScores(raised)
    ensures Raised(SubjectItems(scores, enrollment, offering, policy), SubjectItems(raised, enrollment, offering, policy))
  {
    var n := |scores| - 1;
    SubjectItemsGrow(scores, enrollment, offering, policy);
    SubjectItemsGrow(raised, enrollment, offering, policy);
    if k < n {
      RaisedItems(scores[..n], raised[..n], k, enrollment, offering, policy);
    } else {
      assert raised[..n] == scores[..n];
      HigherOnScale(scores[n], raised[n].value);
    }
  }

  /** Raising one present score never lowers an average, and never fails a passed subject. */
  lemma RaisingAScoreNeverHurts(scores: seq<Score>, k: nat, value: real, enrollment: nat, offering: Offering, policy: Policy)
    requires ValidScores(scores) && k < |scores|
    requires scores[k].status.Present? && scores[k].value <= value <= scores[k].maxScore
    ensures var before := SubjectOutcome(scores, enrollment, offering, policy);
            var after := SubjectOutcome(scores[k := scores[k].(value := value)], enrollment, offering, policy);
            && (before.average.Some? <==> after.average.Some?)
            && (before.average.Some? ==> before.average.value <= after.average.value)
            && (before.passed ==> after.passed)
  {
    var raised := scores[k := scores[k].(value := value)];
    var before := SubjectItems(scores, enrollment, offering.id, policy);
    var after := SubjectItems(raised, enrollment, offering.id, policy);
    RaisedItems(scores, raised, k, enrollment, offering.id, policy);
    SubjectItemsInRange(scores, enrollment, offering.id, policy);
    RaisedSums(before, after);
    if before != [] {
      MeanBalances(before);
      DivideKeepsOrder(ProductSum(before), ProductSum(after), WeightSum(before));
      QuantizeMonotone(ProductSum(before) / WeightSum(before), ProductSum(after) / WeightSum(before),
                       policy.roundingMode, policy.decimalPlaces);
    }
  }

  // ---------------------------------------------------------------- one term

  /** The weighted deviations from `a` of the subjects that have an average. */
  function TermBalance(scores: seq<Score>, enrollment: nat, offerings: seq<Offering>, policy: Policy, a: real): real
    requires ValidScores(scores)
  {
    if offerings == [] then 0.0
    else
      var last := offerings[|offerings| - 1];
      var average := SubjectOutcome(scores, enrollment, last, policy).average;
      TermBalance(scores, enrollment, offerings[..|offerings| - 1], policy, a)
      + if average.Some? then Pull(average.value, last.coefficient, a) else 0.0
  }

  lemma TermItemsLast(scores: seq<Score>, enrollment: nat, offerings: seq<Offering>, policy: Policy)
    requires ValidScores(scores) && offerings != []
    ensures var last := offerings[|offerings| - 1];
            var average := SubjectOutcome(scores, enrollment, last, policy).average;
            TermItems(scores, enrollment, offerings, policy)
            == TermItems(scores, enrollment, offerings[..|offerings| - 1], policy)
               + if average.Some? then [Weighted(average.value, last.coefficient)] else []
  {
  }

  lemma {:induction false} TermBalanceOfItems(scores: seq<Score>, enrollment: nat, offerings: seq<Offering>, policy: Policy, a: real)
    requires ValidScores(scores)
    ensures TermBalance(scores, enrollment, offerings, policy, a)
         == Excess(TermItems(scores, enrollment, offerings, policy), a)
  {
    if offerings != [] {
      var front, last := offerings[..|offerings| - 1], offerings[|offerings| - 1];
      TermBalanceOfItems(scores, enrollment, front, policy, a);
      TermItemsLast(scores, enrollment, offerings, policy);
      var average := SubjectOutcome(scores, enrollment, last, policy).average;
      if average.Some? {
        ExcessGrows(TermItems(scores, enrollment, front, policy), Weighted(average.value, last.coefficient), a);
      }
    }
  }

  lemma {:induction false} TermItemsOfSomeSubject(scores: seq<Score>, enrollment: nat, offerings: seq<Offering>, policy: Policy)
    requires ValidScores(scores)
    ensures TermItems(scores, enrollment, offerings, policy) == []
       <==> forall i :: 0 <= i < |offerings| ==> SubjectOutcome(scores, enrollment, offerings[i], policy).average.None?
  {
    if offerings != [] {
      TermItemsOfSomeSubject(scores, enrollment, offerings[..|offerings| - 1], policy);
      TermItemsLast(scores, enrollment, offerings, policy);
    }
  }

  /** The term average is where the subject averages balance by their coefficients, rounded;
      the term is passed exactly when there is a subject, every subject has an average not
      below its own pass mark, and the term average is not below the overall one. */
  lemma TermAverageBalances(scores: seq<Score>, enrollment: nat, offerings: seq<Offering>, policy: Policy,
                            rank: Option<nat>) returns (a: real)
    requires ValidScores(scores) && ValidOfferings(offerings)
    ensures var r := TermOutcome(scores, enrollment, offerings, policy, rank);
            && (r.average.None? <==> forall i :: 0 <= i < |offerings| ==>
                                       SubjectOutcome(scores, enrollment, offerings[i], policy).average.None?)
            && (r.average.Some? ==>
                  && TermBalance(scores, enrollment, offerings, policy, a) == 0.0
                  && r.average.value == Quantize(a, policy.roundingMode, policy.decimalPlaces))
            && (r.passed <==>
                  && offerings != []
                  && (forall i :: 0 <= i < |offerings| ==>
                        var average := SubjectOutcome(scores, enrollment, offerings[i], policy).average;
                        average.Some? && offerings[i].passMark <= average.value)
                  && r.average.Some? && policy.overallPassMark <= r.average.value)
            && r.formulaVersion == policy.version && r.classRank == rank
  {
    var items := TermItems(scores, enrollment, offerings, policy);
    TermItemsComeFromSubjects(scores, enrollment, offerings, policy);
    a := 0.0;
    if items != [] {
      MeanBalances(items);
      a := ProductSum(items) / WeightSum(items);
    }
    TermBalanceOfItems(scores, enrollment, offerings, policy, a);
    TermItemsOfSomeSubject(scores, enrollment, offerings, policy);
    PassedMeans(scores, enrollment, offerings, policy);
  }

  lemma PassedMeans(scores: seq<Score>, enrollment: nat, offerings: seq<Offering>, policy: Policy)
    requires ValidScores(scores)
    ensures Complete(scores, enrollment, offerings, policy) && PassedAll(scores, enrollment, offerings, policy)
       <==> && offerings != []
            && (forall i :: 0 <= i < |offerings| ==>
                  var average := SubjectOutcome(scores, enrollment, offerings[i], policy).average;
                  average.Some? && offerings[i].passMark <= average.value)
  {
    forall i | 0 <= i < |offerings|
      ensures var r := SubjectOutcome(scores, enrollment, offerings[i], policy);
              r.passed <==> r.average.Some? && offerings[i].passMark <= r.average.value
    {
      var a := SubjectAverageBalances(scores, enrollment, offerings[i], policy);
    }
  }

  /** The subjects of a term are the active offerings of the class in it. */
  lemma {:induction false} OfferingsAreTheActiveOnes(offerings: seq<Offering>, classSection: nat, term: nat)
    ensures forall o :: o in OfferingsOf(offerings, classSection, term)
              <==> o in offerings && o.classSection == classSection && o.term == term && o.active
  {
    if offerings != [] {
      var n := |offerings| - 1;
      OfferingsAreTheActiveOnes(offerings[..n], classSection, term);
      assert offerings == offerings[..n] + [offerings[n]];
    }
  }

  // ---------------------------------------------------------------- the class

  predicate EnrolledOn(e: Enrollment, day: int) {
    e.enrolledOn <= day && (e.leftOn.Some? ==> day <= e.leftOn.value)
  }

  /** The roster of a term holds who belongs to the class on some day of the term. */
  lemma RosterMeansEnrolledOnSomeDay(e: Enrollment, classSection: nat, term: Term)
    requires term.startsOn <= term.endsOn
    requires e.leftOn.Some? ==> e.enrolledOn <= e.leftOn.value
    ensures OnRoster(e, classSection, term)
       <==> && e.classSection == classSection && !e.deleted
            && exists day :: term.startsOn <= day <= term.endsOn && EnrolledOn(e, day)
  {
    var first := if e.enrolledOn < term.startsOn then term.startsOn else e.enrolledOn;
    if OnRoster(e, classSection, term) {
      assert EnrolledOn(e, first);
    }
  }

  /** The ranks stored for a class: none without an average, equal for equal averages, the
      better average first, and rank 1 exactly for the best. */
  lemma StoredRanksFollowAverages(averages: seq<Option<real>>, i: nat, j: nat)
    requires i < |averages| && j < |averages|
    ensures RankAmong(Distinct(averages), averages[i]).Some? <==> averages[i].Some?
    ensures averages[i].Some? && averages[j].Some? ==>
              var first := RankAmong(Distinct(averages), averages[i]).value;
              var second := RankAmong(Distinct(averages), averages[j]).value;
              && (first < second <==> averages[i].value > averages[j].value)
              && (first == second <==> averages[i].value == averages[j].value)
    ensures averages[i].Some? ==>
              (RankAmong(Distinct(averages), averages[i]).value == 1
               <==> forall k :: 0 <= k < |averages| && averages[k].Some? ==> averages[k].value <= averages[i].value)
  {
    var values := Distinct(averages);
    if averages[i].Some? && averages[j].Some? {
      assert averages[i].value in values && averages[j].value in values;
      R.RankOrdersScores(values, averages[i].value, averages[j].value);
      R.RankOrdersScores(values, averages[j].value, averages[i].value);
    }
    if averages[i].Some? {
      var above := R.Higher(values, averages[i].value);
      forall k | 0 <= k < |averages| && averages[k].Some? ensures averages[k].value in values {
      }
      if above != {} {
        var v :| v in above;
        var k :| 0 <= k < |averages| && averages[k] == Some(v);
      } else {
        forall k | 0 <= k < |averages| && averages[k].Some? ensures averages[k].value <= averages[i].value {
          assert averages[k].value !in above;
        }
      }
    }
  }
}
