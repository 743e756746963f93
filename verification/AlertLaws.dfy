/** What one evaluation of an alert policy does, said outright: what becomes of every alert
    there was, which alerts are new, and which notifications are queued; with the counters
    and the percentage that decide it. */
module AlertLaws {
  import opened Options
  import opened Rounding
  import opened Alerts

  // ---------------------------------------------------------------- counting

  /** One more record: nothing changes unless it is a final record of the enrollment in the
      range and the scope; then it counts as a session, as what its status says, and as late
      or left early when it has such minutes. */
  lemma OneRecordCounts(rows: seq<RecordRow>, r: RecordRow, enrollment: nat, scope: Option<Scope>, from: int, to: int,
                        includeExcused: bool)
    ensures var before := CountersOf(rows, enrollment, scope, from, to, includeExcused);
            var after := CountersOf(rows + [r], enrollment, scope, from, to, includeExcused);
            if r.enrollment == enrollment && r.finalized && from <= r.date && r.date <= to
               && (scope.None? || r.scope == scope.value)
            then
              && after.total == before.total + 1
              && after.late == before.late + (if r.lateMinutes == 0 then 0 else 1)
              && after.earlyLeave == before.earlyLeave + (if r.earlyLeaveMinutes == 0 then 0 else 1)
              && (r.status.Present? ==>
                    after.absent == before.absent && after.excused == before.excused && after.unexcused == before.unexcused)
              && (r.status.AbsentExcused? ==>
                    && after.excused == before.excused + 1 && after.unexcused == before.unexcused
                    && after.absent == before.absent + if includeExcused then 1 else 0)
              && (r.status.AbsentUnexcused? ==>
                    && after.excused == before.excused && after.unexcused == before.unexcused + 1
                    && after.absent == before.absent + 1)
            else after == before
  {
    var n := |rows|;
    assert (rows + [r])[..n] == rows && (rows + [r])[..n + 1] == rows + [r];
    OneMoreRecord(rows + [r], n, enrollment, scope, from, to, includeExcused);
  }

  /** Nothing recorded, nothing counted. */
  lemma NoRecordsCountNothing(enrollment: nat, scope: Option<Scope>, from: int, to: int, includeExcused: bool)
    ensures CountersOf([], enrollment, scope, from, to, includeExcused) == Counters(0, 0, 0, 0, 0, 0)
  {
  }

  /** The percentage is the share of absences, to the nearest hundredth. */
  lemma PercentIsTheShare(absent: nat, total: nat)
    ensures total == 0 ==> AbsencePercent(absent, total) == 0.0
    ensures total > 0 ==>
              var share := absent as real * 100.0 / total as real;
              share - 0.005 <= AbsencePercent(absent, total) <= share + 0.005 && OnGrid(AbsencePercent(absent, total), 2)
  {
    if total > 0 {
      var share := absent as real * 100.0 / total as real;
      assert Power10(1) == 10 && Power10(2) == 100;
      QuantizeIsNear(share, HalfUp, 2);
      QuantizeFixesExactlyTheGrid(share, HalfUp, 2);
    }
  }

  // ---------------------------------------------------------------- one evaluation

  predicate CriticalIsDue(p: Policy, m: Metrics) {
    m.total > 0 && (m.absent >= p.criticalCount || m.percent >= p.criticalPercent)
  }

  predicate WarningIsDue(p: Policy, m: Metrics) {
    m.total > 0 && (m.absent >= p.warningCount || m.percent >= p.warningPercent) && !CriticalIsDue(p, m)
  }

  predicate IsDue(p: Policy, m: Metrics, severity: Severity) {
    if severity.Critical? then CriticalIsDue(p, m) else WarningIsDue(p, m)
  }

  /** What was measured for the subject of an alert; nothing recorded counts as zero. */
  function Measured(i: Input, k: Subject): Metrics {
    if k in i.metrics then i.metrics[k] else Metrics(0, 0, 0.0)
  }

  function About(a: Alert): Subject {
    (a.enrollment, a.scope)
  }

  /** What becomes of an alert: left alone unless it is an active one of the policy about an
      evaluated subject; then brought up to date when its severity is the due one, and
      resolved otherwise. */
  function Expected(a: Alert, i: Input, subjects: seq<Subject>): Alert {
    if a.status.Resolved? || a.policy != i.policyId || About(a) !in subjects then a
    else if IsDue(i.policy, Measured(i, About(a)), a.severity)
    then a.(metrics := Measured(i, About(a)), periodStart := i.from, periodEnd := i.to)
    else a.(status := Resolved, resolvedBy := i.actor, resolvedAt := Some(i.now))
  }

  /** A new alert: of the due severity, open, about an evaluated subject that had no active
      alert of this severity. */
  ghost predicate IsNewAlert(a: Alert, t: Tables, i: Input, subjects: seq<Subject>) {
    && a.policy == i.policyId && About(a) in subjects
    && IsDue(i.policy, Measured(i, About(a)), a.severity)
    && a.metrics == Measured(i, About(a)) && a.periodStart == i.from && a.periodEnd == i.to
    && a.status.Open?
    && a.acknowledgedBy.None? && a.acknowledgedAt.None? && a.resolvedBy.None? && a.resolvedAt.None?
    && (forall id | id in t.alerts && t.alerts[id].policy == i.policyId && About(t.alerts[id]) == About(a) ::
          t.alerts[id].severity == a.severity ==> t.alerts[id].status.Resolved?)
  }

  /** A notification an evaluation asks for: about an active alert of an evaluated subject, to
      a contact of its enrollment, with the counts measured now. */
  predicate IsAsked(key: NotificationKey, u: Tables, i: Input, subjects: seq<Subject>) {
    && i.policy.notifyGuardians
    && key.alert in u.alerts && !u.alerts[key.alert].status.Resolved? && u.alerts[key.alert].policy == i.policyId
    && About(u.alerts[key.alert]) in subjects
    && key.absent == Measured(i, About(u.alerts[key.alert])).absent
    && key.total == Measured(i, About(u.alerts[key.alert])).total
    && u.alerts[key.alert].enrollment in i.contacts
    && (key.guardian, key.channel) in i.contacts[u.alerts[key.alert].enrollment]
  }

  ghost predicate Evaluated(t: Tables, u: Tables, i: Input, subjects: seq<Subject>) {
    && (forall id :: id in t.alerts ==> id in u.alerts && u.alerts[id] == Expected(t.alerts[id], i, subjects))
    && (forall id :: id in u.alerts && id !in t.alerts ==> t.nextId <= id && IsNewAlert(u.alerts[id], t, i, subjects))
    && (forall key :: key in u.queued <==> key in t.queued || IsAsked(key, u, i, subjects))
  }

  lemma SeverityIsTheDueOne(p: Policy, m: Metrics, severity: Severity)
    ensures SeverityOf(p, m) == Some(severity) <==> IsDue(p, m, severity)
    ensures SeverityOf(p, m).None? <==> !CriticalIsDue(p, m) && !WarningIsDue(p, m)
  {
  }

  lemma OneSubjectIsEvaluated(t: Tables, i: Input, k: Subject)
    requires UniquePerSeverity(t.alerts) && Numbered(t)
    ensures Evaluated(t, EvaluateOne(t, i, k), i, [k])
  {
    var u := EvaluateOne(t, i, k);
    EvaluateOneTouches(t, i, k);
    OldAlertsOfOneSubject(t, i, k);
    NewAlertsOfOneSubject(t, i, k);
    QueueOfOneSubject(t, i, k);
  }

  lemma OldAlertsOfOneSubject(t: Tables, i: Input, k: Subject)
    requires UniquePerSeverity(t.alerts) && Numbered(t)
    ensures var u := EvaluateOne(t, i, k);
            forall id :: id in t.alerts ==> id in u.alerts && u.alerts[id] == Expected(t.alerts[id], i, [k])
  {
    var u := EvaluateOne(t, i, k);
    EvaluateOneTouches(t, i, k);
    forall id | id in t.alerts ensures id in u.alerts && u.alerts[id] == Expected(t.alerts[id], i, [k]) {
      var a := t.alerts[id];
      SeverityIsTheDueOne(i.policy, MetricsFor(i, k), a.severity);
      if id in ActiveAlerts(t.alerts, i.policyId, k) && IsDue(i.policy, MetricsFor(i, k), a.severity) {
        assert Matches(t.alerts, id, i.policyId, k, a.severity);
        assert MatchingAlert(t, i, k) == Some(id);
      }
    }
  }

  lemma NewAlertsOfOneSubject(t: Tables, i: Input, k: Subject)
    requires UniquePerSeverity(t.alerts) && Numbered(t)
    ensures var u := EvaluateOne(t, i, k);
            forall id :: id in u.alerts && id !in t.alerts ==> t.nextId <= id && IsNewAlert(u.alerts[id], t, i, [k])
  {
    var u := EvaluateOne(t, i, k);
    var severity := SeverityOf(i.policy, MetricsFor(i, k));
    if severity.Some? && MatchingAlert(t, i, k).None? {
      SeverityIsTheDueOne(i.policy, MetricsFor(i, k), severity.value);
      forall id | id in t.alerts && t.alerts[id].policy == i.policyId && About(t.alerts[id]) == k
        ensures t.alerts[id].severity == severity.value ==> t.alerts[id].status.Resolved?
      {
        assert !Matches(t.alerts, id, i.policyId, k, severity.value);
      }
    }
  }

  lemma QueueOfOneSubject(t: Tables, i: Input, k: Subject)
    requires UniquePerSeverity(t.alerts) && Numbered(t)
    ensures var u := EvaluateOne(t, i, k);
            forall key :: key in u.queued <==> key in t.queued || IsAsked(key, u, i, [k])
  {
    var u := EvaluateOne(t, i, k);
    var m := MetricsFor(i, k);
    EvaluateOneSettles(t, i, k);
    forall key ensures key in u.queued <==> key in t.queued || IsAsked(key, u, i, [k]) {
      if IsAsked(key, u, i, [k]) {
        assert key.alert in ActiveAlerts(u.alerts, i.policyId, k);
        assert key == NotificationKey(key.alert, m.absent, m.total, key.guardian, key.channel);
      }
    }
  }

  lemma SubjectsAddUp(t: Tables, f: Tables, u: Tables, i: Input, front: seq<Subject>, k: Subject)
    requires Evaluated(t, f, i, front) && Evaluated(f, u, i, [k]) && k !in front && t.nextId <= f.nextId
    ensures Evaluated(t, u, i, front + [k])
  {
    forall id | id in t.alerts ensures id in u.alerts && u.alerts[id] == Expected(t.alerts[id], i, front + [k]) {
      assert f.alerts[id] == Expected(t.alerts[id], i, front);
    }
    forall id | id in u.alerts && id !in t.alerts
      ensures t.nextId <= id && IsNewAlert(u.alerts[id], t, i, front + [k])
    {
      if id in f.alerts {
        assert IsNewAlert(f.alerts[id], t, i, front);
      } else {
        assert IsNewAlert(u.alerts[id], f, i, [k]);
        forall past | past in t.alerts && t.alerts[past].policy == i.policyId && About(t.alerts[past]) == k
          ensures f.alerts[past] == t.alerts[past]
        {
        }
      }
    }
    AskedOfMore(t, f, u, i, front, k);
  }

  lemma AskedOfMore(t: Tables, f: Tables, u: Tables, i: Input, front: seq<Subject>, k: Subject)
    requires Evaluated(t, f, i, front) && Evaluated(f, u, i, [k]) && k !in front
    ensures forall key :: key in u.queued <==> key in t.queued || IsAsked(key, u, i, front + [k])
  {
    forall key ensures IsAsked(key, f, i, front) <==> IsAsked(key, u, i, front) {
      if key.alert in f.alerts {
        assert u.alerts[key.alert] == Expected(f.alerts[key.alert], i, [k]);
      } else if key.alert in u.alerts {
        assert IsNewAlert(u.alerts[key.alert], f, i, [k]);
      }
    }
    forall key ensures IsAsked(key, u, i, front + [k]) <==> IsAsked(key, u, i, front) || IsAsked(key, u, i, [k]) {
    }
  }

  lemma SubjectsRepeat(t: Tables, u: Tables, i: Input, front: seq<Subject>, k: Subject)
    requires Evaluated(t, u, i, front) && k in front
    ensures Evaluated(t, u, i, front + [k])
  {
    forall key ensures IsAsked(key, u, i, front + [k]) <==> IsAsked(key, u, i, front) {
    }
    forall id | id in u.alerts && id !in t.alerts ensures IsNewAlert(u.alerts[id], t, i, front + [k]) {
      assert IsNewAlert(u.alerts[id], t, i, front);
    }
  }

  lemma {:induction false} NumbersGrow(t: Tables, i: Input, subjects: seq<Subject>)
    requires UniquePerSeverity(t.alerts) && Numbered(t)
    ensures t.nextId <= EvaluateAll(t, i, subjects).nextId
  {
    if subjects != [] {
      var n := |subjects| - 1;
      NumbersGrow(t, i, subjects[..n]);
      EvaluateOneTouches(EvaluateAll(t, i, subjects[..n]), i, subjects[n]);
    }
  }

  /** A whole evaluation, exactly: every alert there was becomes what is expected of it, every
      alert that was not there is a new one of the due severity, and the queue grows by the
      notifications about the active alerts of the evaluated subjects and no others. */
  lemma {:induction false} EvaluationExactly(t: Tables, i: Input, subjects: seq<Subject>)
    requires UniquePerSeverity(t.alerts) && Numbered(t)
    ensures Evaluated(t, EvaluateAll(t, i, subjects), i, subjects)
  {
    if subjects != [] {
      var n := |subjects| - 1;
      var front, k := subjects[..n], subjects[n];
      var f := EvaluateAll(t, i, front);
      EvaluationExactly(t, i, front);
      assert front + [k] == subjects;
      if k in front {
        EvaluateAllSettles(t, i, front, k);
        SettledIsFixed(f, i, k);
        SubjectsRepeat(t, f, i, front, k);
      } else {
        NumbersGrow(t, i, front);
        OneSubjectIsEvaluated(f, i, k);
        SubjectsAddUp(t, f, EvaluateOne(f, i, k), i, front, k);
      }
    }
  }

  predicate IsActiveAbout(u: Tables, policyId: nat, k: Subject, id: nat) {
    id in u.alerts && u.alerts[id].policy == policyId && About(u.alerts[id]) == k && !u.alerts[id].status.Resolved?
  }

  ghost predicate HasActive(u: Tables, policyId: nat, k: Subject, severity: Severity) {
    exists id :: IsActiveAbout(u, policyId, k, id) && u.alerts[id].severity == severity
  }

  /** After it, an evaluated subject has an active alert of a severity exactly when this
      severity is the due one, and never two. */
  lemma ActiveAlertsAreTheDueOnes(t: Tables, i: Input, subjects: seq<Subject>, k: Subject, severity: Severity)
    requires UniquePerSeverity(t.alerts) && Numbered(t) && k in subjects
    ensures var u := EvaluateAll(t, i, subjects);
            && (HasActive(u, i.policyId, k, severity) <==> IsDue(i.policy, Measured(i, k), severity))
            && (forall a, b :: IsActiveAbout(u, i.policyId, k, a) && IsActiveAbout(u, i.policyId, k, b) ==> a == b)
  {
    var u := EvaluateAll(t, i, subjects);
    EvaluateAllSettles(t, i, subjects, k);
    SeverityIsTheDueOne(i.policy, MetricsFor(i, k), severity);
    var due := SeverityOf(i.policy, MetricsFor(i, k));
    assert forall id :: IsActiveAbout(u, i.policyId, k, id) <==> id in ActiveAlerts(u.alerts, i.policyId, k);
    if due.Some? {
      var id :| IsCurrent(u, i, k, due.value, MetricsFor(i, k), id);
      assert IsActiveAbout(u, i.policyId, k, id) && u.alerts[id].severity == due.value;
      assert due == Some(severity) <==> due.value == severity;
    }
  }

  // ---------------------------------------------------------------- what a policy evaluates

  /** The subjects are the listed enrollments in both scopes. */
  lemma {:induction false} SubjectsAreEnrollmentsTwice(enrollments: seq<nat>, k: Subject)
    ensures k in Subjects(enrollments) <==> k.0 in enrollments
  {
    if enrollments != [] {
      var n := |enrollments| - 1;
      SubjectsAreEnrollmentsTwice(enrollments[..n], k);
      assert enrollments == enrollments[..n] + [enrollments[n]];
      assert k.1.Daily? || k.1.Period?;
    }
  }

  /** What a policy is evaluated with: for each listed enrollment and scope the sessions and
      absences of that scope among the last `lookbackDays` days of the year up to today, and
      their percentage. */
  lemma PolicyIsMeasured(policyId: nat, policy: Policy, today: int, startsOn: int, endsOn: int, rows: seq<RecordRow>,
                         enrollments: seq<nat>, contacts: map<nat, seq<(nat, string)>>, actor: Option<nat>, now: int, k: Subject)
    requires policy.Valid() && startsOn <= endsOn && k.0 in enrollments
    ensures var i := InputOf(policyId, policy, today, startsOn, endsOn, rows, enrollments, contacts, actor, now);
            var c := CountersOf(rows, k.0, Some(k.1), i.from, i.to, policy.includeExcused);
            && Measured(i, k) == Metrics(c.total, c.absent, AbsencePercent(c.absent, c.total))
            && i.to == (if today < startsOn then startsOn else if today > endsOn then endsOn else today)
            && i.from == (if i.to - policy.lookbackDays + 1 < startsOn then startsOn else i.to - policy.lookbackDays + 1)
            && i.policyId == policyId && i.policy == policy && i.contacts == contacts && i.actor == actor && i.now == now
  {
    var i := InputOf(policyId, policy, today, startsOn, endsOn, rows, enrollments, contacts, actor, now);
    assert SCOPES[0] == Daily && SCOPES[1] == Period;
    assert k.1.Daily? || k.1.Period?;
    assert k.1 in SCOPES;
    assert k == (k.0, k.1);
    assert k in i.metrics;
  }
}
