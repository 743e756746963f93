/** Absence alerts.  Evaluating a policy compares every active enrollment's absence metrics
    with the thresholds, keeps, replaces or resolves its alert, and queues notifications to
    guardians; staff acknowledge and resolve alerts. */
module Alerts {
  import opened Counting
  import opened Options
  import opened Rounding

  datatype Scope = Daily | Period

  datatype Severity = Warning | Critical

  datatype AlertStatus = Open | Acknowledged | Resolved

  datatype AttendanceStatus = Present | AbsentExcused | AbsentUnexcused

  /** A record joined with its session. */
  datatype RecordRow = RecordRow(
    enrollment: nat, scope: Scope, date: int, finalized: bool,
    status: AttendanceStatus, lateMinutes: nat, earlyLeaveMinutes: nat)

  datatype Counters = Counters(total: nat, absent: nat, excused: nat, unexcused: nat, late: nat, earlyLeave: nat)

  /** The counters of one enrollment with its absence percentage. */
  datatype Report = Report(counters: Counters, percent: real)

  /** What the thresholds are compared with. */
  datatype Metrics = Metrics(total: nat, absent: nat, percent: real)

  datatype Policy = Policy(
    warningCount: nat, criticalCount: nat, warningPercent: real, criticalPercent: real,
    lookbackDays: nat, includeExcused: bool, notifyGuardians: bool)
  {
    /** The policy model's own validation. */
    predicate Valid() {
      && 1 <= warningCount <= criticalCount && 1 <= lookbackDays
      && 0.0 <= warningPercent <= criticalPercent <= 100.0
    }
  }

  datatype Alert = Alert(
    policy: nat, enrollment: nat, scope: Scope, severity: Severity,
    periodStart: int, periodEnd: int, metrics: Metrics,
    status: AlertStatus,
    acknowledgedBy: Option<nat>, acknowledgedAt: Option<int>,
    resolvedBy: Option<nat>, resolvedAt: Option<int>)
  {
    predicate Active() { status != Resolved }
  }

  /** The parts the dedupe key of a notification is hashed from. */
  datatype NotificationKey = NotificationKey(alert: nat, absent: nat, total: nat, guardian: nat, channel: string)

  // ---------------------------------------------------------------- metrics

  /** The record lies in the range of dates and, when one is asked for, in the scope. */
  predicate Reported(r: RecordRow, scope: Option<Scope>, from: int, to: int) {
    r.finalized && from <= r.date <= to && (scope == None || scope == Some(r.scope))
  }

  /** What the counters count. */
  datatype Kind = Session | Absence(includeExcused: bool) | Excused | Unexcused | Late | EarlyLeave

  predicate IsOf(r: RecordRow, kind: Kind) {
    match kind
    case Session => true
    case Absence(includeExcused) => r.status == AbsentUnexcused || (includeExcused && r.status == AbsentExcused)
    case Excused => r.status == AbsentExcused
    case Unexcused => r.status == AbsentUnexcused
    case Late => r.lateMinutes > 0
    case EarlyLeave => r.earlyLeaveMinutes > 0
  }

  function Count(rows: seq<RecordRow>, enrollment: nat, scope: Option<Scope>, from: int, to: int, kind: Kind): nat {
    if rows == [] then 0
    else
      var last := rows[|rows| - 1];
      Count(rows[..|rows| - 1], enrollment, scope, from, to, kind)
      + Bit(last.enrollment == enrollment && Reported(last, scope, from, to) && IsOf(last, kind))
  }

  lemma OneMoreRow(rows: seq<RecordRow>, k: nat, enrollment: nat, scope: Option<Scope>, from: int, to: int, kind: Kind)
    requires k < |rows|
    ensures Count(rows[..k + 1], enrollment, scope, from, to, kind)
         == Count(rows[..k], enrollment, scope, from, to, kind)
            + Bit(rows[k].enrollment == enrollment && Reported(rows[k], scope, from, to) && IsOf(rows[k], kind))
  {
    assert rows[..k + 1][..k] == rows[..k];
  }

  function CountersOf(rows: seq<RecordRow>, enrollment: nat, scope: Option<Scope>, from: int, to: int, includeExcused: bool): Counters {
    Counters(Count(rows, enrollment, scope, from, to, Session),
             Count(rows, enrollment, scope, from, to, Absence(includeExcused)),
             Count(rows, enrollment, scope, from, to, Excused),
             Count(rows, enrollment, scope, from, to, Unexcused),
             Count(rows, enrollment, scope, from, to, Late),
             Count(rows, enrollment, scope, from, to, EarlyLeave))
  }

  function AbsencePercent(absent: nat, total: nat): real {
    if total == 0 then 0.0 else Quantize(absent as real * 100.0 / total as real, HalfUp, 2)
  }

  function ReportOf(c: Counters): Report {
    Report(c, AbsencePercent(c.absent, c.total))
  }

  function MetricsOf(r: Report): Metrics {
    Metrics(r.counters.total, r.counters.absent, r.percent)
  }

  lemma {:induction false} KindsAddUp(rows: seq<RecordRow>, enrollment: nat, scope: Option<Scope>, from: int, to: int, kind: Kind)
    ensures Count(rows, enrollment, scope, from, to, kind) <= Count(rows, enrollment, scope, from, to, Session)
    ensures Count(rows, enrollment, scope, from, to, Absence(false)) == Count(rows, enrollment, scope, from, to, Unexcused)
    ensures Count(rows, enrollment, scope, from, to, Absence(true))
         == Count(rows, enrollment, scope, from, to, Unexcused) + Count(rows, enrollment, scope, from, to, Excused)
  {
    if rows != [] {
      KindsAddUp(rows[..|rows| - 1], enrollment, scope, from, to, kind);
    }
  }

  /** Absences are the unexcused ones and, when asked for, the excused ones; no counter
      exceeds the number of sessions. */
  lemma CountersAddUp(rows: seq<RecordRow>, enrollment: nat, scope: Option<Scope>, from: int, to: int, includeExcused: bool)
    ensures var c := CountersOf(rows, enrollment, scope, from, to, includeExcused);
            && c.absent == c.unexcused + (if includeExcused then c.excused else 0)
            && c.excused + c.unexcused <= c.total && c.late <= c.total && c.earlyLeave <= c.total
  {
    KindsAddUp(rows, enrollment, scope, from, to, Absence(true));
    KindsAddUp(rows, enrollment, scope, from, to, Late);
    KindsAddUp(rows, enrollment, scope, from, to, EarlyLeave);
  }

  lemma OneSideReports(r: RecordRow, scope: Option<Scope>, from: int, day: int, to: int)
    requires from <= day <= to
    ensures Bit(Reported(r, scope, from, to)) == Bit(Reported(r, scope, from, day)) + Bit(Reported(r, scope, day + 1, to))
    ensures Bit(Reported(r, None, from, to)) == Bit(Reported(r, Some(Daily), from, to)) + Bit(Reported(r, Some(Period), from, to))
  {
    assert r.scope == Daily || r.scope == Period;
  }

  lemma CountOfFront(rows: seq<RecordRow>, enrollment: nat, scope: Option<Scope>, from: int, to: int, kind: Kind)
    requires rows != []
    ensures var last := rows[|rows| - 1];
            Count(rows, enrollment, scope, from, to, kind)
            == Count(rows[..|rows| - 1], enrollment, scope, from, to, kind)
               + (if last.enrollment == enrollment && IsOf(last, kind) then Bit(Reported(last, scope, from, to)) else 0)
  {
  }

  /** A range of dates splits at any day. */
  lemma {:induction false} RangesAddUp(rows: seq<RecordRow>, enrollment: nat, scope: Option<Scope>, from: int, day: int, to: int,
                                       kind: Kind)
    requires from <= day <= to
    ensures Count(rows, enrollment, scope, from, to, kind)
         == Count(rows, enrollment, scope, from, day, kind) + Count(rows, enrollment, scope, day + 1, to, kind)
  {
    if rows != [] {
      RangesAddUp(rows[..|rows| - 1], enrollment, scope, from, day, to, kind);
      OneSideReports(rows[|rows| - 1], scope, from, day, to);
      CountOfFront(rows, enrollment, scope, from, to, kind);
      CountOfFront(rows, enrollment, scope, from, day, kind);
      CountOfFront(rows, enrollment, scope, day + 1, to, kind);
    }
  }

  /** The two scopes make up the whole. */
  lemma {:induction false} ScopesAddUp(rows: seq<RecordRow>, enrollment: nat, from: int, to: int, kind: Kind)
    requires from <= to
    ensures Count(rows, enrollment, None, from, to, kind)
         == Count(rows, enrollment, Some(Daily), from, to, kind) + Count(rows, enrollment, Some(Period), from, to, kind)
  {
    if rows != [] {
      ScopesAddUp(rows[..|rows| - 1], enrollment, from, to, kind);
      OneSideReports(rows[|rows| - 1], None, from, from, to);
      CountOfFront(rows, enrollment, None, from, to, kind);
      CountOfFront(rows, enrollment, Some(Daily), from, to, kind);
      CountOfFront(rows, enrollment, Some(Period), from, to, kind);
    }
  }

  lemma PercentInRange(absent: nat, total: nat)
    requires absent <= total
    ensures 0.0 <= AbsencePercent(absent, total) <= 100.0
    ensures total > 0 && absent == total ==> AbsencePercent(absent, total) == 100.0
  {
    if total > 0 {
      var t := total as real;
      var share := absent as real * 100.0 / t;
      DivideKeepsOrder(0.0, absent as real * 100.0, t);
      DivideKeepsOrder(absent as real * 100.0, 100.0 * t, t);
      DivideUndoesMultiply(100.0, t);
      assert Power10(1) == 10 && Power10(2) == 100;
      assert 0.0 == Multiple(0, 100.0) && 100.0 == Multiple(10000, 100.0);
      QuantizeFixesExactlyTheGrid(0.0, HalfUp, 2);
      QuantizeFixesExactlyTheGrid(100.0, HalfUp, 2);
      QuantizeMonotone(0.0, share, HalfUp, 2);
      QuantizeMonotone(share, 100.0, HalfUp, 2);
    }
  }

  /** The range of a report: the asked one, or the last days up to today, kept inside the
      academic year. */
  function DateRange(today: int, startsOn: int, endsOn: int, dateFrom: Option<int>, dateTo: Option<int>, lookbackDays: Option<nat>)
    : (range: (int, int))
    requires startsOn <= endsOn
    ensures startsOn <= range.0 <= range.1 <= endsOn
  {
    var asked := if dateTo.Some? then dateTo.value else today;
    var late := if asked < startsOn then startsOn else asked;
    var end := if late > endsOn then endsOn else late;
    var back := if dateFrom.Some? then dateFrom.value
                else if lookbackDays.Some? && lookbackDays.value != 0 then end - (lookbackDays.value - 1) else startsOn;
    var start := if back < startsOn then startsOn else back;
    (if start < end then start else end, end)
  }

  /** An asked range that meets the year gives exactly its days in the year; a range after
      or before the year gives one day at that end. */
  lemma AskedRangeIsKept(today: int, startsOn: int, endsOn: int, dateFrom: int, dateTo: int, lookbackDays: Option<nat>, day: int)
    requires startsOn <= endsOn && dateFrom <= dateTo
    ensures var r := DateRange(today, startsOn, endsOn, Some(dateFrom), Some(dateTo), lookbackDays);
            && (dateFrom <= endsOn && startsOn <= dateTo
                ==> (r.0 <= day <= r.1 <==> startsOn <= day <= endsOn && dateFrom <= day <= dateTo))
            && (dateFrom > endsOn ==> r == (endsOn, endsOn))
            && (dateTo < startsOn ==> r == (startsOn, startsOn))
  {
  }

  /** Looking back over some days takes the latest days of the year so far, that many or as
      many as there are. */
  lemma LookbackIsTheLatestDays(today: int, startsOn: int, endsOn: int, lookbackDays: nat)
    requires startsOn <= endsOn && lookbackDays >= 1
    ensures var r := DateRange(today, startsOn, endsOn, None, None, Some(lookbackDays));
            && (startsOn <= today <= endsOn ==> r.1 == today)
            && (today < startsOn ==> r.1 == startsOn) && (today > endsOn ==> r.1 == endsOn)
            && r.1 - r.0 + 1 == if r.1 - startsOn + 1 < lookbackDays then r.1 - startsOn + 1 else lookbackDays
  {
  }

  const NOTHING := Counters(0, 0, 0, 0, 0, 0)

  function CountersIn(counts: map<nat, Counters>, enrollment: nat): Counters {
    if enrollment in counts then counts[enrollment] else NOTHING
  }

  function WithRecord(c: Counters, r: RecordRow, includeExcused: bool): Counters {
    Counters(c.total + 1, c.absent + Bit(IsOf(r, Absence(includeExcused))), c.excused + Bit(IsOf(r, Excused)),
             c.unexcused + Bit(IsOf(r, Unexcused)), c.late + Bit(IsOf(r, Late)), c.earlyLeave + Bit(IsOf(r, EarlyLeave)))
  }

  lemma OneMoreRecord(rows: seq<RecordRow>, k: nat, e: nat, scope: Option<Scope>, from: int, to: int, includeExcused: bool)
    requires k < |rows|
    ensures var before := CountersOf(rows[..k], e, scope, from, to, includeExcused);
            CountersOf(rows[..k + 1], e, scope, from, to, includeExcused)
            == if rows[k].enrollment == e && Reported(rows[k], scope, from, to)
               then WithRecord(before, rows[k], includeExcused) else before
  {
    OneMoreRow(rows, k, e, scope, from, to, Session);
    OneMoreRow(rows, k, e, scope, from, to, Absence(includeExcused));
    OneMoreRow(rows, k, e, scope, from, to, Excused);
    OneMoreRow(rows, k, e, scope, from, to, Unexcused);
    OneMoreRow(rows, k, e, scope, from, to, Late);
    OneMoreRow(rows, k, e, scope, from, to, EarlyLeave);
  }

  /** The reports of the listed enrollments, grouped in one pass over the records. */
  method MetricsMap(rows: seq<RecordRow>, enrollments: seq<nat>, scope: Option<Scope>, from: int, to: int, includeExcused: bool)
    returns (results: map<nat, Report>)
    ensures results.Keys == set e | e in enrollments
    ensures forall e :: e in enrollments ==>
              results[e] == ReportOf(CountersOf(rows, e, scope, from, to, includeExcused))
  {
    var counts: map<nat, Counters> := map[];
    for k := 0 to |rows|
      invariant forall e :: e in enrollments ==>
        CountersIn(counts, e) == CountersOf(rows[..k], e, scope, from, to, includeExcused)
    {
      var row := rows[k];
      forall e { OneMoreRecord(rows, k, e, scope, from, to, includeExcused); }
      if row.enrollment in enrollments && Reported(row, scope, from, to) {
        counts := counts[row.enrollment := WithRecord(CountersIn(counts, row.enrollment), row, includeExcused)];
      }
    }
    assert rows[..|rows|] == rows;
    results := map e | e in enrollments :: ReportOf(CountersIn(counts, e));
  }

  // ---------------------------------------------------------------- thresholds

  function SeverityOf(p: Policy, m: Metrics): Option<Severity> {
    if m.total == 0 then None
    else if m.absent >= p.criticalCount || m.percent >= p.criticalPercent then Some(Critical)
    else if m.absent >= p.warningCount || m.percent >= p.warningPercent then Some(Warning)
    else None
  }

  /** For a valid policy an alert is due exactly when the warning threshold is reached. */
  lemma AlertIsDue(p: Policy, m: Metrics)
    requires p.Valid()
    ensures SeverityOf(p, m).Some?
       <==> m.total > 0 && (m.absent >= p.warningCount || m.percent >= p.warningPercent)
  {
  }

  // ---------------------------------------------------------------- tables

  /** `nextId` is above every alert; `queued` holds the keys of all notifications ever
      created, which are never deleted. */
  datatype Tables = Tables(alerts: map<nat, Alert>, nextId: nat, queued: set<NotificationKey>)

  /** What one evaluation works with; `contacts` lists the guardian and channel pairs. */
  datatype Input = Input(
    policyId: nat, policy: Policy, from: int, to: int,
    metrics: map<(nat, Scope), Metrics>,
    contacts: map<nat, seq<(nat, string)>>,
    actor: Option<nat>, now: int)

  type Subject = (nat, Scope)

  predicate Concerns(a: Alert, policyId: nat, k: Subject) {
    a.policy == policyId && a.enrollment == k.0 && a.scope == k.1
  }

  function ActiveAlerts(alerts: map<nat, Alert>, policyId: nat, k: Subject): set<nat> {
    set id | id in alerts && Concerns(alerts[id], policyId, k) && alerts[id].Active()
  }

  /** Two alerts of the same policy, enrollment and scope. */
  predicate SameSubject(a: Alert, b: Alert) {
    a.policy == b.policy && a.enrollment == b.enrollment && a.scope == b.scope
  }

  /** The declared constraint: one active alert per policy, enrollment, scope and severity. */
  ghost predicate UniquePerSeverity(alerts: map<nat, Alert>) {
    forall a, b | a in alerts && b in alerts && alerts[a].Active() && alerts[b].Active() ::
      SameSubject(alerts[a], alerts[b]) && alerts[a].severity == alerts[b].severity ==> a == b
  }

  /** What the runs keep: one active alert per policy, enrollment and scope. */
  ghost predicate UniquePerSubject(alerts: map<nat, Alert>) {
    forall a, b | a in alerts && b in alerts && alerts[a].Active() && alerts[b].Active() ::
      SameSubject(alerts[a], alerts[b]) ==> a == b
  }

  predicate Numbered(t: Tables) {
    forall id :: id in t.alerts ==> id < t.nextId
  }

  function Close(a: Alert, actor: Option<nat>, now: int): Alert {
    a.(status := Resolved, resolvedBy := actor, resolvedAt := Some(now))
  }

  function CloseAll(alerts: map<nat, Alert>, ids: set<nat>, actor: Option<nat>, now: int): map<nat, Alert> {
    map id | id in alerts :: if id in ids then Close(alerts[id], actor, now) else alerts[id]
  }

  predicate Matches(alerts: map<nat, Alert>, id: nat, policyId: nat, k: Subject, severity: Severity) {
    id in ActiveAlerts(alerts, policyId, k) && alerts[id].severity == severity
  }

  function Refreshed(a: Alert, from: int, to: int, m: Metrics): Alert {
    a.(periodStart := from, periodEnd := to, metrics := m)
  }

  function NewAlert(i: Input, k: Subject, severity: Severity, m: Metrics): Alert {
    Alert(i.policyId, k.0, k.1, severity, i.from, i.to, m, Open, None, None, None, None)
  }

  function ContactsOf(i: Input, enrollment: nat): seq<(nat, string)> {
    if enrollment in i.contacts then i.contacts[enrollment] else []
  }

  function KeysFor(i: Input, id: nat, enrollment: nat, m: Metrics): set<NotificationKey> {
    if i.policy.notifyGuardians
    then set c | c in ContactsOf(i, enrollment) :: NotificationKey(id, m.absent, m.total, c.0, c.1)
    else {}
  }

  function MetricsFor(i: Input, k: Subject): Metrics {
    if k in i.metrics then i.metrics[k] else Metrics(0, 0, 0.0)
  }

  /** The state of one subject after it was evaluated. */
  ghost predicate Settled(t: Tables, i: Input, k: Subject) {
    var m := MetricsFor(i, k);
    var severity := SeverityOf(i.policy, m);
    if severity == None then ActiveAlerts(t.alerts, i.policyId, k) == {}
    else exists id :: IsCurrent(t, i, k, severity.value, m, id)
  }

  ghost predicate IsCurrent(t: Tables, i: Input, k: Subject, severity: Severity, m: Metrics, id: nat) {
    && ActiveAlerts(t.alerts, i.policyId, k) == {id}
    && t.alerts[id].severity == severity
    && t.alerts[id].metrics == m && t.alerts[id].periodStart == i.from && t.alerts[id].periodEnd == i.to
    && KeysFor(i, id, k.0, m) <= t.queued
  }

  /** The alert of one subject, as the tables stood before, that an evaluation keeps. */
  ghost function MatchingAlert(t: Tables, i: Input, k: Subject): (r: Option<nat>)
    requires UniquePerSeverity(t.alerts)
    ensures r.Some? <==> SeverityOf(i.policy, MetricsFor(i, k)).Some?
                         && exists id :: Matches(t.alerts, id, i.policyId, k, SeverityOf(i.policy, MetricsFor(i, k)).value)
    ensures r.Some? ==> Matches(t.alerts, r.value, i.policyId, k, SeverityOf(i.policy, MetricsFor(i, k)).value)
  {
    var severity := SeverityOf(i.policy, MetricsFor(i, k));
    if severity.Some? && exists id :: Matches(t.alerts, id, i.policyId, k, severity.value)
    then
      var id :| Matches(t.alerts, id, i.policyId, k, severity.value);
      Some(id)
    else None
  }

  /** The tables after one subject was evaluated. */
  ghost function EvaluateOne(t: Tables, i: Input, k: Subject): Tables
    requires UniquePerSeverity(t.alerts)
  {
    var m := MetricsFor(i, k);
    var severity := SeverityOf(i.policy, m);
    var matching := MatchingAlert(t, i, k);
    var active := ActiveAlerts(t.alerts, i.policyId, k);
    var stale := if matching.Some? then active - {matching.value} else active;
    var closed := CloseAll(t.alerts, stale, i.actor, i.now);
    if severity == None then t.(alerts := closed)
    else if matching.Some? then
      t.(alerts := closed[matching.value := Refreshed(closed[matching.value], i.from, i.to, m)],
         queued := t.queued + KeysFor(i, matching.value, k.0, m))
    else
      Tables(closed[t.nextId := NewAlert(i, k, severity.value, m)], t.nextId + 1,
             t.queued + KeysFor(i, t.nextId, k.0, m))
  }

  // ---------------------------------------------------------------- one subject

  /** Only the subject's own active alerts may change, alerts are never removed, and no
      queued notification is forgotten. */
  ghost predicate OnlyTouches(t: Tables, u: Tables, policyId: nat, k: Subject) {
    && t.nextId <= u.nextId && t.queued <= u.queued
    && (forall id :: id in t.alerts ==>
          && id in u.alerts && SameSubject(t.alerts[id], u.alerts[id])
          && (!Concerns(t.alerts[id], policyId, k) || !t.alerts[id].Active() ==> u.alerts[id] == t.alerts[id]))
    && (forall id :: id in u.alerts && id !in t.alerts ==> Concerns(u.alerts[id], policyId, k))
  }

  lemma EvaluateOneTouches(t: Tables, i: Input, k: Subject)
    requires UniquePerSeverity(t.alerts) && Numbered(t)
    ensures Numbered(EvaluateOne(t, i, k))
    ensures OnlyTouches(t, EvaluateOne(t, i, k), i.policyId, k)
  {
  }

  lemma EvaluateOneSettles(t: Tables, i: Input, k: Subject)
    requires UniquePerSeverity(t.alerts) && Numbered(t)
    ensures Settled(EvaluateOne(t, i, k), i, k)
  {
    var u := EvaluateOne(t, i, k);
    var m := MetricsFor(i, k);
    var severity := SeverityOf(i.policy, m);
    var matching := MatchingAlert(t, i, k);
    if severity == None {
      assert ActiveAlerts(u.alerts, i.policyId, k) == {};
    } else if matching.Some? {
      assert ActiveAlerts(u.alerts, i.policyId, k) == {matching.value};
      assert IsCurrent(u, i, k, severity.value, m, matching.value);
    } else {
      assert t.nextId !in t.alerts;
      assert ActiveAlerts(u.alerts, i.policyId, k) == {t.nextId};
      assert IsCurrent(u, i, k, severity.value, m, t.nextId);
    }
  }

  lemma EvaluateOneKeepsUnique(t: Tables, i: Input, k: Subject)
    requires UniquePerSeverity(t.alerts) && Numbered(t)
    ensures UniquePerSeverity(EvaluateOne(t, i, k).alerts)
    ensures UniquePerSubject(t.alerts) ==> UniquePerSubject(EvaluateOne(t, i, k).alerts)
  {
    var u := EvaluateOne(t, i, k);
    EvaluateOneTouches(t, i, k);
    EvaluateOneSettles(t, i, k);
    SettledMeansAtMostOne(u, i, k);
  }

  lemma SettledMeansAtMostOne(t: Tables, i: Input, k: Subject)
    requires Settled(t, i, k)
    ensures forall a, b | a in t.alerts && b in t.alerts && t.alerts[a].Active() && t.alerts[b].Active() ::
              Concerns(t.alerts[a], i.policyId, k) && Concerns(t.alerts[b], i.policyId, k) ==> a == b
  {
    forall a, b | a in t.alerts && b in t.alerts && t.alerts[a].Active() && t.alerts[b].Active()
                  && Concerns(t.alerts[a], i.policyId, k) && Concerns(t.alerts[b], i.policyId, k)
      ensures a == b
    {
      assert a in ActiveAlerts(t.alerts, i.policyId, k) && b in ActiveAlerts(t.alerts, i.policyId, k);
    }
  }

  /** Evaluating a settled subject again changes nothing: no alert, no notification. */
  lemma SettledIsFixed(t: Tables, i: Input, k: Subject)
    requires UniquePerSeverity(t.alerts) && Settled(t, i, k)
    ensures EvaluateOne(t, i, k) == t
  {
    var m := MetricsFor(i, k);
    var severity := SeverityOf(i.policy, m);
    if severity == None {
      assert CloseAll(t.alerts, {}, i.actor, i.now) == t.alerts;
    } else {
      var id :| IsCurrent(t, i, k, severity.value, m, id);
      assert Matches(t.alerts, id, i.policyId, k, severity.value);
      assert MatchingAlert(t, i, k) == Some(id);
      assert ActiveAlerts(t.alerts, i.policyId, k) - {id} == {};
      assert CloseAll(t.alerts, {}, i.actor, i.now) == t.alerts;
      assert t.queued + KeysFor(i, id, k.0, m) == t.queued;
    }
  }

  lemma SettledElsewhere(t: Tables, u: Tables, i: Input, k: Subject, other: Subject)
    requires OnlyTouches(t, u, i.policyId, k) && other != k && Settled(t, i, other)
    ensures Settled(u, i, other)
  {
    assert ActiveAlerts(u.alerts, i.policyId, other) == ActiveAlerts(t.alerts, i.policyId, other);
    var m := MetricsFor(i, other);
    var severity := SeverityOf(i.policy, m);
    if severity.Some? {
      var id :| IsCurrent(t, i, other, severity.value, m, id);
      assert id in ActiveAlerts(t.alerts, i.policyId, other);
      assert IsCurrent(u, i, other, severity.value, m, id);
    }
  }

  // ---------------------------------------------------------------- a whole evaluation

  /** The subjects in evaluation order; each is visited once. */
  ghost function EvaluateAll(t: Tables, i: Input, subjects: seq<Subject>): (u: Tables)
    requires UniquePerSeverity(t.alerts) && Numbered(t)
    ensures UniquePerSeverity(u.alerts) && Numbered(u)
    ensures UniquePerSubject(t.alerts) ==> UniquePerSubject(u.alerts)
  {
    if subjects == [] then t
    else
      var n := |subjects| - 1;
      var front := EvaluateAll(t, i, subjects[..n]);
      EvaluateOneKeepsUnique(front, i, subjects[n]);
      EvaluateOneTouches(front, i, subjects[n]);
      EvaluateOne(front, i, subjects[n])
  }

  lemma {:induction false} EvaluateAllSettles(t: Tables, i: Input, subjects: seq<Subject>, k: Subject)
    requires UniquePerSeverity(t.alerts) && Numbered(t) && k in subjects
    ensures Settled(EvaluateAll(t, i, subjects), i, k)
  {
    var n := |subjects| - 1;
    var front := EvaluateAll(t, i, subjects[..n]);
    EvaluateOneTouches(front, i, subjects[n]);
    EvaluateOneSettles(front, i, subjects[n]);
    if k != subjects[n] {
      EvaluateAllSettles(t, i, subjects[..n], k);
      SettledElsewhere(front, EvaluateOne(front, i, subjects[n]), i, subjects[n], k);
    }
  }

  lemma {:induction false} EvaluateSettledIsFixed(t: Tables, i: Input, subjects: seq<Subject>)
    requires UniquePerSeverity(t.alerts) && Numbered(t)
    requires forall k :: k in subjects ==> Settled(t, i, k)
    ensures EvaluateAll(t, i, subjects) == t
  {
    if subjects != [] {
      var n := |subjects| - 1;
      EvaluateSettledIsFixed(t, i, subjects[..n]);
      SettledIsFixed(t, i, subjects[n]);
    }
  }

  /** After an evaluation every active enrollment has an active alert exactly when its
      metrics reach a threshold, and then just one, with that severity and those counts. */
  lemma EvaluationAgreesWithMetrics(t: Tables, i: Input, subjects: seq<Subject>, k: Subject)
    requires UniquePerSeverity(t.alerts) && Numbered(t) && k in subjects && i.policy.Valid()
    ensures var u := EvaluateAll(t, i, subjects);
            var active := ActiveAlerts(u.alerts, i.policyId, k);
            var m := MetricsFor(i, k);
            && (active != {} <==> m.total > 0 && (m.absent >= i.policy.warningCount || m.percent >= i.policy.warningPercent))
            && |active| <= 1
            && (forall id :: id in active ==>
                  && (u.alerts[id].severity == Critical
                      <==> m.absent >= i.policy.criticalCount || m.percent >= i.policy.criticalPercent)
                  && u.alerts[id].metrics == m
                  && u.alerts[id].periodStart == i.from && u.alerts[id].periodEnd == i.to)
  {
    EvaluateAllSettles(t, i, subjects, k);
    AlertIsDue(i.policy, MetricsFor(i, k));
  }

  /** Evaluating unchanged data a second time, at any later moment and by anyone, changes
      no alert and queues no notification. */
  lemma ReevaluationChangesNothing(t: Tables, i: Input, subjects: seq<Subject>, actor: Option<nat>, now: int)
    requires UniquePerSeverity(t.alerts) && Numbered(t)
    ensures var u := EvaluateAll(t, i, subjects);
            EvaluateAll(u, i.(actor := actor, now := now), subjects) == u
  {
    var u := EvaluateAll(t, i, subjects);
    var again := i.(actor := actor, now := now);
    forall k | k in subjects ensures Settled(u, again, k) {
      EvaluateAllSettles(t, i, subjects, k);
      assert KeysFor(again, 0, k.0, MetricsFor(again, k)) == KeysFor(i, 0, k.0, MetricsFor(i, k));
      SameInputSettles(u, i, again, k);
    }
    EvaluateSettledIsFixed(u, again, subjects);
  }

  lemma SameInputSettles(t: Tables, i: Input, again: Input, k: Subject)
    requires again == i.(actor := again.actor, now := again.now) && Settled(t, i, k)
    ensures Settled(t, again, k)
  {
    var m := MetricsFor(i, k);
    var severity := SeverityOf(i.policy, m);
    if severity.Some? {
      var id :| IsCurrent(t, i, k, severity.value, m, id);
      assert IsCurrent(t, again, k, severity.value, m, id);
    }
  }

  // ---------------------------------------------------------------- runs

  datatype Event =
    | Evaluate(input: Input, subjects: seq<Subject>)
    | Acknowledge(id: nat, user: nat, at: int)
    | Resolve(id: nat, user: nat, at: int)

  ghost function Step(t: Tables, e: Event): (u: Tables)
    requires UniquePerSeverity(t.alerts) && Numbered(t)
    ensures UniquePerSeverity(u.alerts) && Numbered(u)
    ensures UniquePerSubject(t.alerts) ==> UniquePerSubject(u.alerts)
  {
    match e
    case Evaluate(i, subjects) => EvaluateAll(t, i, subjects)
    case Acknowledge(id, user, at) =>
      if id in t.alerts && t.alerts[id].status == Open
      then t.(alerts := t.alerts[id := t.alerts[id].(status := Acknowledged, acknowledgedBy := Some(user), acknowledgedAt := Some(at))])
      else t
    case Resolve(id, user, at) =>
      if id in t.alerts && t.alerts[id].status != Resolved
      then t.(alerts := t.alerts[id := Close(t.alerts[id], Some(user), at)])
      else t
  }

  ghost function Run(t: Tables, events: seq<Event>): (u: Tables)
    requires UniquePerSeverity(t.alerts) && Numbered(t)
    ensures UniquePerSeverity(u.alerts) && Numbered(u)
    ensures UniquePerSubject(t.alerts) ==> UniquePerSubject(u.alerts)
    decreases |events|
  {
    if events == [] then t else Run(Step(t, events[0]), events[1..])
  }

  lemma {:induction false} EvaluateAllKeepsResolved(t: Tables, i: Input, subjects: seq<Subject>)
    requires UniquePerSeverity(t.alerts) && Numbered(t)
    ensures var u := EvaluateAll(t, i, subjects);
            t.queued <= u.queued
            && forall id :: id in t.alerts ==>
                 id in u.alerts && SameSubject(t.alerts[id], u.alerts[id])
                 && (t.alerts[id].status == Resolved ==> u.alerts[id] == t.alerts[id])
  {
    if subjects != [] {
      var n := |subjects| - 1;
      EvaluateAllKeepsResolved(t, i, subjects[..n]);
      EvaluateOneTouches(EvaluateAll(t, i, subjects[..n]), i, subjects[n]);
    }
  }

  /** Over every run that starts with at most one active alert per policy, enrollment and
      scope this stays so; in every run no alert disappears, and a resolved alert never
      reopens or changes. */
  lemma {:induction false} AlertHistory(t: Tables, events: seq<Event>)
    requires UniquePerSeverity(t.alerts) && Numbered(t)
    ensures var u := Run(t, events);
            && (UniquePerSubject(t.alerts) ==> UniquePerSubject(u.alerts))
            && t.queued <= u.queued
            && (forall id :: id in t.alerts ==>
                  id in u.alerts && SameSubject(t.alerts[id], u.alerts[id])
                  && (t.alerts[id].status == Resolved ==> u.alerts[id] == t.alerts[id]))
    decreases |events|
  {
    if events != [] {
      StepKeepsHistory(t, events[0]);
      AlertHistory(Step(t, events[0]), events[1..]);
    }
  }

  /** What `AlertHistory` says of one event. */
  lemma StepKeepsHistory(t: Tables, e: Event)
    requires UniquePerSeverity(t.alerts) && Numbered(t)
    ensures var u := Step(t, e);
            t.queued <= u.queued
            && forall id :: id in t.alerts ==>
                 id in u.alerts && SameSubject(t.alerts[id], u.alerts[id])
                 && (t.alerts[id].status == Resolved ==> u.alerts[id] == t.alerts[id])
  {
    if e.Evaluate? {
      EvaluateAllKeepsResolved(t, e.input, e.subjects);
    }
  }

  // ---------------------------------------------------------------- the service

  const SCOPES: seq<Scope> := [Daily, Period]

  function Subjects(enrollments: seq<nat>): (r: seq<Subject>)
    ensures forall e :: e in enrollments ==> (e, Daily) in r && (e, Period) in r
  {
    if enrollments == [] then []
    else
      var e := enrollments[|enrollments| - 1];
      Subjects(enrollments[..|enrollments| - 1]) + [(e, Daily), (e, Period)]
  }

  function AllMetrics(rows: seq<RecordRow>, enrollments: seq<nat>, from: int, to: int, includeExcused: bool): map<Subject, Metrics> {
    map e, scope | e in enrollments && scope in SCOPES
      :: (e, scope) := MetricsOf(ReportOf(CountersOf(rows, e, Some(scope), from, to, includeExcused)))
  }

  function Combine(enrollments: seq<nat>, daily: map<nat, Report>, byPeriod: map<nat, Report>): map<Subject, Metrics>
    requires forall e :: e in enrollments ==> e in daily && e in byPeriod
  {
    map e, scope | e in enrollments && scope in SCOPES
      :: (e, scope) := MetricsOf(if scope == Daily then daily[e] else byPeriod[e])
  }

  /** What the evaluation of a policy computes before it touches the alerts. */
  function InputOf(policyId: nat, policy: Policy, today: int, startsOn: int, endsOn: int, rows: seq<RecordRow>,
                   enrollments: seq<nat>, contacts: map<nat, seq<(nat, string)>>, actor: Option<nat>, now: int): Input
    requires policy.Valid() && startsOn <= endsOn
  {
    var range := DateRange(today, startsOn, endsOn, None, None, Some(policy.lookbackDays));
    Input(policyId, policy, range.0, range.1,
          AllMetrics(rows, enrollments, range.0, range.1, policy.includeExcused),
          contacts, actor, now)
  }

  lemma EvaluateWithMatch(t: Tables, i: Input, k: Subject, id: nat)
    requires UniquePerSeverity(t.alerts) && Numbered(t)
    requires id in ActiveAlerts(t.alerts, i.policyId, k)
    requires SeverityOf(i.policy, MetricsFor(i, k)) == Some(t.alerts[id].severity)
    ensures var m := MetricsFor(i, k);
            var closed := CloseAll(t.alerts, ActiveAlerts(t.alerts, i.policyId, k) - {id}, i.actor, i.now);
            EvaluateOne(t, i, k)
              == Tables(closed[id := Refreshed(closed[id], i.from, i.to, m)], t.nextId, t.queued + KeysFor(i, id, k.0, m))
  {
    assert Matches(t.alerts, id, i.policyId, k, t.alerts[id].severity);
    assert MatchingAlert(t, i, k) == Some(id);
  }

  lemma EvaluateWithoutMatch(t: Tables, i: Input, k: Subject, candidates: set<nat>)
    requires UniquePerSeverity(t.alerts) && Numbered(t) && candidates == {}
    requires candidates == set id | id in ActiveAlerts(t.alerts, i.policyId, k)
                                    && SeverityOf(i.policy, MetricsFor(i, k)) == Some(t.alerts[id].severity)
    ensures var m := MetricsFor(i, k);
            var severity := SeverityOf(i.policy, m);
            var closed := CloseAll(t.alerts, ActiveAlerts(t.alerts, i.policyId, k), i.actor, i.now);
            EvaluateOne(t, i, k)
              == if severity == None then Tables(closed, t.nextId, t.queued)
                 else Tables(closed[t.nextId := NewAlert(i, k, severity.value, m)], t.nextId + 1,
                             t.queued + KeysFor(i, t.nextId, k.0, m))
  {
    var severity := SeverityOf(i.policy, MetricsFor(i, k));
    if severity.Some? {
      assert forall id :: Matches(t.alerts, id, i.policyId, k, severity.value) ==> id in candidates;
    }
  }

  lemma EvaluateAllAppend(t: Tables, i: Input, subjects: seq<Subject>, k: Subject)
    requires UniquePerSeverity(t.alerts) && Numbered(t)
    ensures EvaluateAll(t, i, subjects + [k]) == EvaluateOne(EvaluateAll(t, i, subjects), i, k)
  {
    assert (subjects + [k])[..|subjects|] == subjects;
  }

  lemma TwoMoreSubjects(t: Tables, i: Input, enrollments: seq<nat>, n: nat)
    requires UniquePerSeverity(t.alerts) && Numbered(t) && n < |enrollments|
    ensures var before := EvaluateAll(t, i, Subjects(enrollments[..n]));
            && UniquePerSeverity(EvaluateOne(before, i, (enrollments[n], Daily)).alerts)
            && EvaluateAll(t, i, Subjects(enrollments[..n + 1]))
                 == EvaluateOne(EvaluateOne(before, i, (enrollments[n], Daily)), i, (enrollments[n], Period))
  {
    var e := enrollments[n];
    var before := Subjects(enrollments[..n]);
    assert enrollments[..n + 1][..n] == enrollments[..n];
    assert Subjects(enrollments[..n + 1]) == (before + [(e, Daily)]) + [(e, Period)];
    EvaluateOneKeepsUnique(EvaluateAll(t, i, before), i, (e, Daily));
    EvaluateAllAppend(t, i, before, (e, Daily));
    EvaluateAllAppend(t, i, before + [(e, Daily)], (e, Period));
  }

  class AlertService {
    var alerts: map<nat, Alert>
    var nextId: nat
    var queued: set<NotificationKey>

    function Stored(): Tables
      reads this
    {
      Tables(alerts, nextId, queued)
    }

    ghost predicate Valid()
      reads this
    {
      UniquePerSeverity(alerts) && Numbered(Stored())
    }

    /** Resolves alerts one after the other. */
    method ResolveStale(stale: set<nat>, actor: Option<nat>, now: int)
      requires forall id :: id in stale ==> id in alerts
      modifies this`alerts
      ensures alerts == CloseAll(old(alerts), stale, actor, now)
    {
      var rest := stale;
      while rest != {}
        invariant rest <= stale
        invariant alerts.Keys == old(alerts).Keys
        invariant forall id :: id in alerts ==>
          alerts[id] == if id in stale && id !in rest then Close(old(alerts)[id], actor, now) else old(alerts)[id]
        decreases rest
      {
        var id :| id in rest;
        alerts := alerts[id := Close(alerts[id], actor, now)];
        rest := rest - {id};
      }
    }

    method CreateAlert(i: Input, k: Subject, severity: Severity, m: Metrics)
      modifies this
      ensures alerts == old(alerts)[old(nextId) := NewAlert(i, k, severity, m)]
      ensures nextId == old(nextId) + 1 && queued == old(queued) + KeysFor(i, old(nextId), k.0, m)
    {
      alerts := alerts[nextId := NewAlert(i, k, severity, m)];
      queued := queued + KeysFor(i, nextId, k.0, m);
      nextId := nextId + 1;
    }

    method RefreshAlert(i: Input, k: Subject, id: nat, m: Metrics)
      requires id in alerts
      modifies this
      ensures alerts == old(alerts)[id := Refreshed(old(alerts)[id], i.from, i.to, m)]
      ensures nextId == old(nextId) && queued == old(queued) + KeysFor(i, id, k.0, m)
    {
      alerts := alerts[id := Refreshed(alerts[id], i.from, i.to, m)];
      queued := queued + KeysFor(i, id, k.0, m);
    }

    /** One enrollment and scope of an evaluation. */
    method EvaluateSubject(i: Input, k: Subject)
      requires Valid()
      modifies this
      ensures Valid()
      ensures Stored() == EvaluateOne(old(Stored()), i, k)
    {
      EvaluateOneKeepsUnique(Stored(), i, k);
      EvaluateOneTouches(Stored(), i, k);
      var m := MetricsFor(i, k);
      var severity := SeverityOf(i.policy, m);
      var active := ActiveAlerts(alerts, i.policyId, k);
      var candidates := set id | id in active && severity == Some(alerts[id].severity);
      if candidates == {} {
        EvaluateWithoutMatch(Stored(), i, k, candidates);
        ResolveStale(active, i.actor, i.now);
        if severity.Some? {
          CreateAlert(i, k, severity.value, m);
        }
      } else {
        var id :| id in candidates;
        EvaluateWithMatch(Stored(), i, k, id);
        ResolveStale(active - {id}, i.actor, i.now);
        RefreshAlert(i, k, id, m);
      }
    }

    /** Every enrollment of the list, in both scopes. */
    method EvaluateEnrollments(i: Input, enrollments: seq<nat>)
      requires Valid()
      modifies this
      ensures Valid()
      ensures Stored() == EvaluateAll(old(Stored()), i, Subjects(enrollments))
    {
      for n := 0 to |enrollments|
        invariant Valid()
        invariant Stored() == EvaluateAll(old(Stored()), i, Subjects(enrollments[..n]))
      {
        TwoMoreSubjects(old(Stored()), i, enrollments, n);
        EvaluateSubject(i, (enrollments[n], Daily));
        EvaluateSubject(i, (enrollments[n], Period));
      }
      assert enrollments[..|enrollments|] == enrollments;
    }

    /** The whole evaluation: the window and the metrics first, then the alerts. */
    method EvaluatePolicy(policyId: nat, policy: Policy, today: int, startsOn: int, endsOn: int, rows: seq<RecordRow>,
                          enrollments: seq<nat>, contacts: map<nat, seq<(nat, string)>>, actor: Option<nat>, now: int)
      requires Valid() && policy.Valid() && startsOn <= endsOn
      modifies this
      ensures Valid()
      ensures Stored() == EvaluateAll(old(Stored()),
                                      InputOf(policyId, policy, today, startsOn, endsOn, rows, enrollments, contacts, actor, now),
                                      Subjects(enrollments))
    {
      var range := DateRange(today, startsOn, endsOn, None, None, Some(policy.lookbackDays));
      var daily := MetricsMap(rows, enrollments, Some(Daily), range.0, range.1, policy.includeExcused);
      var byPeriod := MetricsMap(rows, enrollments, Some(Period), range.0, range.1, policy.includeExcused);
      var metrics := Combine(enrollments, daily, byPeriod);
      assert metrics == AllMetrics(rows, enrollments, range.0, range.1, policy.includeExcused);
      EvaluateEnrollments(Input(policyId, policy, range.0, range.1, metrics, contacts, actor, now), enrollments);
    }

    method AcknowledgeAlert(id: nat, user: nat, at: int) returns (ok: bool)
      requires Valid() && id in alerts
      modifies this`alerts
      ensures Valid()
      ensures ok <==> old(alerts)[id].status == Open
      ensures Stored() == Step(old(Stored()), Acknowledge(id, user, at))
      ensures !ok ==> alerts == old(alerts)
      ensures ok ==> alerts == old(alerts)[id := old(alerts)[id].(status := Acknowledged, acknowledgedBy := Some(user),
                                                                  acknowledgedAt := Some(at))]
    {
      if alerts[id].status != Open {
        return false;
      }
      alerts := alerts[id := alerts[id].(status := Acknowledged, acknowledgedBy := Some(user), acknowledgedAt := Some(at))];
      return true;
    }

    method ResolveAlert(id: nat, user: nat, at: int)
      requires Valid() && id in alerts
      modifies this`alerts
      ensures Valid()
      ensures Stored() == Step(old(Stored()), Resolve(id, user, at))
      ensures old(alerts)[id].status == Resolved ==> alerts == old(alerts)
      ensures old(alerts)[id].status != Resolved ==>
                alerts == old(alerts)[id := old(alerts)[id].(status := Resolved, resolvedBy := Some(user), resolvedAt := Some(at))]
    {
      if alerts[id].status == Resolved {
        return;
      }
      alerts := alerts[id := alerts[id].(status := Resolved, resolvedBy := Some(user), resolvedAt := Some(at))];
    }
  }
}
