/** The workflow of one assessment: scores are edited in DRAFT or REJECTED, then submitted,
    reviewed and locked; a locked score can only be corrected with a reason.  Every write
    of a score leaves a revision. */
module Assessments {
  import opened Options
  import Text

  datatype Status = Draft | Submitted | Rejected | Approved | Locked

  datatype ScoreStatus = Present | ExcusedAbsent | UnexcusedAbsent | NotEntered

  datatype Enrollment = Enrollment(classSection: nat, enrolledOn: int, leftOn: Option<int>, deleted: bool)

  datatype Score = Score(value: Option<real>, status: ScoreStatus, note: string, recordedBy: nat, revision: nat)

  /** The old side is empty for the revision that created the score. */
  datatype ScoreRevision = ScoreRevision(
    oldValue: Option<real>, newValue: Option<real>,
    oldStatus: Option<ScoreStatus>, newStatus: ScoreStatus,
    oldNote: string, newNote: string,
    reason: string, changedBy: nat, assessmentStatus: Status)

  datatype Assessment = Assessment(
    classSection: nat, date: int, maxScore: real,
    status: Status, workflowVersion: nat,
    submittedAt: Option<int>, reviewedAt: Option<int>, reviewedBy: Option<nat>, lockedAt: Option<int>,
    rejectionReason: string)

  /** One assessment with its scores and their history, keyed by enrollment. */
  datatype Store = Store(
    assessment: Assessment,
    enrollments: map<nat, Enrollment>,
    scores: map<nat, Score>,
    history: map<nat, seq<ScoreRevision>>)

  datatype Entry = Entry(enrollment: nat, value: Option<real>, status: ScoreStatus, note: string)

  // ---------------------------------------------------------------- rules

  predicate ActiveOn(e: Enrollment, a: Assessment) {
    && e.classSection == a.classSection && e.enrolledOn <= a.date
    && (e.leftOn == None || e.leftOn.value >= a.date)
  }

  function ActiveEnrollments(s: Store): set<nat> {
    set e | e in s.enrollments && ActiveOn(s.enrollments[e], s.assessment) && !s.enrollments[e].deleted
  }

  function EnteredEnrollments(s: Store): set<nat> {
    set e | e in s.scores && s.scores[e].status != NotEntered
  }

  /** Exactly the enrollments active on the assessment date have a score, and there are some. */
  predicate CompleteScores(s: Store) {
    ActiveEnrollments(s) != {} && EnteredEnrollments(s) == ActiveEnrollments(s)
  }

  /** The score model's own validation. */
  predicate CleanScore(s: Store, enrollment: nat, value: Option<real>, status: ScoreStatus) {
    && enrollment in s.enrollments && s.enrollments[enrollment].classSection == s.assessment.classSection
    && (if status == Present then value.Some? && 0.0 <= value.value <= s.assessment.maxScore else value == None)
  }

  function HistoryOf(history: map<nat, seq<ScoreRevision>>, enrollment: nat): seq<ScoreRevision> {
    if enrollment in history then history[enrollment] else []
  }

  /** Stores a score with its revision. */
  function WriteScore(s: Store, e: Entry, reason: string, actor: nat): Store {
    var k := e.enrollment;
    var was := k in s.scores;
    var score := Score(e.value, e.status, e.note, actor, if was then s.scores[k].revision + 1 else 1);
    var revision := ScoreRevision(
      if was then s.scores[k].value else None, e.value,
      if was then Some(s.scores[k].status) else None, e.status,
      if was then s.scores[k].note else "", e.note,
      reason, actor, s.assessment.status);
    s.(scores := s.scores[k := score], history := s.history[k := HistoryOf(s.history, k) + [revision]])
  }

  predicate EntryAccepted(s: Store, e: Entry) {
    && e.enrollment in s.enrollments && ActiveOn(s.enrollments[e.enrollment], s.assessment)
    && CleanScore(s, e.enrollment, e.value, e.status)
  }

  /** All entries in order, or nothing when one is refused or repeated. */
  function WriteEntries(s: Store, entries: seq<Entry>, actor: nat): Option<Store> {
    if entries == [] then Some(s)
    else
      var n := |entries| - 1;
      var front := WriteEntries(s, entries[..n], actor);
      if front.Some? && !Mentions(entries[..n], entries[n].enrollment) && EntryAccepted(front.value, entries[n])
      then Some(WriteScore(front.value, entries[n], "", actor)) else None
  }

  predicate Mentions(entries: seq<Entry>, enrollment: nat) {
    exists i :: 0 <= i < |entries| && entries[i].enrollment == enrollment
  }

  function Moved(a: Assessment, target: Status, actor: nat, reason: string, now: int): Assessment {
    var b := a.(status := target, workflowVersion := a.workflowVersion + 1);
    match target
    case Submitted => b.(submittedAt := Some(now), rejectionReason := "")
    case Rejected => b.(reviewedAt := Some(now), reviewedBy := Some(actor), rejectionReason := reason)
    case Approved => b.(reviewedAt := Some(now), reviewedBy := Some(actor), rejectionReason := "")
    case Locked => b.(lockedAt := Some(now), reviewedBy := Some(actor))
    case Draft => b
  }

  datatype Operation =
    | Reenroll(enrollments: map<nat, Enrollment>)
    | BulkUpsert(entries: seq<Entry>, actor: nat)
    | Submit(actor: nat, now: int)
    | Approve(actor: nat, now: int)
    | Reject(actor: nat, reason: string, now: int)
    | Lock(actor: nat, now: int)
    | CorrectLocked(entry: Entry, reason: string, actor: nat)

  /** What an operation makes of the store; nothing when it is refused. */
  function Try(s: Store, op: Operation): Option<Store> {
    var status := s.assessment.status;
    match op
    case Reenroll(enrollments) => Some(s.(enrollments := enrollments))
    case BulkUpsert(entries, actor) =>
      if status == Draft || status == Rejected then WriteEntries(s, entries, actor) else None
    case Submit(actor, now) =>
      if CompleteScores(s) && (status == Draft || status == Rejected)
      then Some(s.(assessment := Moved(s.assessment, Submitted, actor, "", now))) else None
    case Approve(actor, now) =>
      if status == Submitted then Some(s.(assessment := Moved(s.assessment, Approved, actor, "", now))) else None
    case Reject(actor, reason, now) =>
      if Text.Strip(reason) != "" && status == Submitted
      then Some(s.(assessment := Moved(s.assessment, Rejected, actor, reason, now))) else None
    case Lock(actor, now) =>
      if CompleteScores(s) && status == Approved
      then Some(s.(assessment := Moved(s.assessment, Locked, actor, "", now))) else None
    case CorrectLocked(entry, reason, actor) =>
      if entry.enrollment in s.scores && status == Locked && |Text.Strip(reason)| >= 5
         && CleanScore(s, entry.enrollment, entry.value, entry.status)
      then Some(WriteScore(s, entry, reason, actor)) else None
  }

  function Step(s: Store, op: Operation): Store {
    var r := Try(s, op);
    if r.Some? then r.value else s
  }

  function Run(s: Store, ops: seq<Operation>): Store
    decreases |ops|
  {
    if ops == [] then s else Run(Step(s, ops[0]), ops[1..])
  }

  // ---------------------------------------------------------------- the service

  lemma OneMoreEntry(s: Store, entries: seq<Entry>, i: nat, actor: nat)
    requires i < |entries| && WriteEntries(s, entries[..i], actor).Some?
    ensures var front := WriteEntries(s, entries[..i], actor).value;
            WriteEntries(s, entries[..i + 1], actor)
            == if !Mentions(entries[..i], entries[i].enrollment) && EntryAccepted(front, entries[i])
               then Some(WriteScore(front, entries[i], "", actor)) else None
  {
    assert entries[..i + 1][..i] == entries[..i];
  }

  lemma MentionsOneMore(entries: seq<Entry>, i: nat)
    requires i < |entries|
    ensures forall e :: Mentions(entries[..i + 1], e) <==> Mentions(entries[..i], e) || e == entries[i].enrollment
  {
    forall e | Mentions(entries[..i], e) || e == entries[i].enrollment ensures Mentions(entries[..i + 1], e) {
      if Mentions(entries[..i], e) {
        var j :| 0 <= j < i && entries[..i][j].enrollment == e;
        assert entries[..i + 1][j].enrollment == e;
      } else {
        assert entries[..i + 1][i].enrollment == e;
      }
    }
    forall e | Mentions(entries[..i + 1], e) ensures Mentions(entries[..i], e) || e == entries[i].enrollment {
      var j :| 0 <= j <= i && entries[..i + 1][j].enrollment == e;
      if j < i {
        assert entries[..i][j].enrollment == e;
      }
    }
  }

  lemma {:induction false} RefusedEntryRefusesAll(s: Store, entries: seq<Entry>, i: nat, actor: nat)
    requires i < |entries| && WriteEntries(s, entries[..i + 1], actor) == None
    ensures WriteEntries(s, entries, actor) == None
    decreases |entries|
  {
    var n := |entries| - 1;
    if i < n {
      assert entries[..n][..i + 1] == entries[..i + 1];
      RefusedEntryRefusesAll(s, entries[..n], i, actor);
    } else {
      assert entries[..i + 1] == entries;
    }
  }

  class AssessmentService {
    var assessment: Assessment
    var enrollments: map<nat, Enrollment>
    var scores: map<nat, Score>
    var history: map<nat, seq<ScoreRevision>>

    function Stored(): Store
      reads this
    {
      Store(assessment, enrollments, scores, history)
    }

    /** The guarded status change shared by all four transitions. */
    method Transition(allowed: set<Status>, target: Status, actor: nat, reason: string, now: int) returns (ok: bool)
      requires target != Draft
      modifies this`assessment
      ensures ok <==> old(assessment).status in allowed
      ensures assessment == if ok then Moved(old(assessment), target, actor, reason, now) else old(assessment)
    {
      if assessment.status !in allowed {
        return false;
      }
      assessment := assessment.(status := target);
      assessment := assessment.(workflowVersion := assessment.workflowVersion + 1);
      if target == Submitted {
        assessment := assessment.(submittedAt := Some(now), rejectionReason := "");
      } else if target == Rejected || target == Approved {
        assessment := assessment.(reviewedAt := Some(now));
        assessment := assessment.(reviewedBy := Some(actor));
        assessment := assessment.(rejectionReason := if target == Rejected then reason else "");
      } else if target == Locked {
        assessment := assessment.(lockedAt := Some(now));
        assessment := assessment.(reviewedBy := Some(actor));
      }
      return true;
    }

    method SubmitAssessment(actor: nat, now: int) returns (ok: bool)
      modifies this`assessment
      ensures ok <==> Try(old(Stored()), Submit(actor, now)).Some?
      ensures Stored() == Step(old(Stored()), Submit(actor, now))
    {
      if !CompleteScores(Stored()) {
        return false;
      }
      ok := Transition({Draft, Rejected}, Submitted, actor, "", now);
    }

    method ApproveAssessment(actor: nat, now: int) returns (ok: bool)
      modifies this`assessment
      ensures ok <==> Try(old(Stored()), Approve(actor, now)).Some?
      ensures Stored() == Step(old(Stored()), Approve(actor, now))
    {
      ok := Transition({Submitted}, Approved, actor, "", now);
    }

    method RejectAssessment(actor: nat, reason: string, now: int) returns (ok: bool)
      modifies this`assessment
      ensures ok <==> Try(old(Stored()), Reject(actor, reason, now)).Some?
      ensures Stored() == Step(old(Stored()), Reject(actor, reason, now))
    {
      if Text.Strip(reason) == "" {
        return false;
      }
      ok := Transition({Submitted}, Rejected, actor, reason, now);
    }

    method LockAssessment(actor: nat, now: int) returns (ok: bool)
      modifies this`assessment
      ensures ok <==> Try(old(Stored()), Lock(actor, now)).Some?
      ensures Stored() == Step(old(Stored()), Lock(actor, now))
    {
      if !CompleteScores(Stored()) {
        return false;
      }
      ok := Transition({Approved}, Locked, actor, "", now);
    }

    /** One pass over the entries; an error rolls everything back. */
    method BulkUpsertScores(entries: seq<Entry>, actor: nat) returns (ok: bool)
      modifies this`scores, this`history
      ensures ok <==> Try(old(Stored()), BulkUpsert(entries, actor)).Some?
      ensures Stored() == Step(old(Stored()), BulkUpsert(entries, actor))
    {
      if assessment.status != Draft && assessment.status != Rejected {
        return false;
      }
      ghost var start := Stored();
      var draft := Stored();
      var seen: set<nat> := {};
      for i := 0 to |entries|
        invariant Stored() == start
        invariant WriteEntries(start, entries[..i], actor) == Some(draft)
        invariant draft == start.(scores := draft.scores, history := draft.history)
        invariant forall e :: e in seen <==> Mentions(entries[..i], e)
      {
        var entry := entries[i];
        OneMoreEntry(start, entries, i, actor);
        if entry.enrollment in seen || !EntryAccepted(draft, entry) {
          RefusedEntryRefusesAll(start, entries, i, actor);
          assert Try(start, BulkUpsert(entries, actor)) == None;
          return false;
        }
        MentionsOneMore(entries, i);
        seen := seen + {entry.enrollment};
        draft := WriteScore(draft, entry, "", actor);
      }
      assert entries[..|entries|] == entries;
      scores, history := draft.scores, draft.history;
      return true;
    }

    method CorrectLockedScore(entry: Entry, reason: string, actor: nat) returns (ok: bool)
      requires entry.enrollment in scores
      modifies this`scores, this`history
      ensures ok <==> Try(old(Stored()), CorrectLocked(entry, reason, actor)).Some?
      ensures Stored() == Step(old(Stored()), CorrectLocked(entry, reason, actor))
    {
      if assessment.status != Locked {
        return false;
      }
      if |Text.Strip(reason)| < 5 {
        return false;
      }
      if !CleanScore(Stored(), entry.enrollment, entry.value, entry.status) {
        return false;
      }
      var k := entry.enrollment;
      var was := scores[k];
      var score := Score(entry.value, entry.status, entry.note, actor, was.revision + 1);
      scores := scores[k := score];
      history := history[k := HistoryOf(history, k)
                   + [ScoreRevision(was.value, score.value, Some(was.status), score.status, was.note, score.note,
                                    reason, actor, assessment.status)]];
      return true;
    }
  }

  // ---------------------------------------------------------------- history of every score

  /** Revisions chain from nothing to the score as it is now. */
  predicate Recorded(score: Score, history: seq<ScoreRevision>) {
    && score.revision == |history| >= 1
    && history[0].oldStatus == None && history[0].oldValue == None
    && (forall i :: 0 <= i < |history| - 1 ==>
          && history[i + 1].oldValue == history[i].newValue
          && history[i + 1].oldStatus == Some(history[i].newStatus)
          && history[i + 1].oldNote == history[i].newNote)
    && var last := history[|history| - 1];
       last.newValue == score.value && last.newStatus == score.status && last.newNote == score.note
  }

  predicate Consistent(s: Store) {
    && s.history.Keys == s.scores.Keys
    && forall k :: k in s.scores ==> Recorded(s.scores[k], HistoryOf(s.history, k))
  }

  lemma RecordingContinues(was: Score, history: seq<ScoreRevision>, score: Score, r: ScoreRevision)
    requires Recorded(was, history) && score.revision == was.revision + 1
    requires r.oldValue == was.value && r.oldStatus == Some(was.status) && r.oldNote == was.note
    requires r.newValue == score.value && r.newStatus == score.status && r.newNote == score.note
    ensures Recorded(score, history + [r])
  {
    var longer := history + [r];
    forall i | 0 <= i < |longer| - 1
      ensures longer[i + 1].oldValue == longer[i].newValue
              && longer[i + 1].oldStatus == Some(longer[i].newStatus)
              && longer[i + 1].oldNote == longer[i].newNote
    {
      assert longer[i] == history[i];
      if i + 1 < |history| {
        assert longer[i + 1] == history[i + 1];
      }
    }
  }

  lemma WrittenScoreIsRecorded(s: Store, e: Entry, reason: string, actor: nat)
    requires Consistent(s)
    ensures var t := WriteScore(s, e, reason, actor);
            Recorded(t.scores[e.enrollment], HistoryOf(t.history, e.enrollment))
  {
    var k := e.enrollment;
    var t := WriteScore(s, e, reason, actor);
    if k in s.scores {
      var h := t.history[k];
      RecordingContinues(s.scores[k], s.history[k], t.scores[k], h[|h| - 1]);
    }
  }

  lemma WriteKeepsConsistent(s: Store, e: Entry, reason: string, actor: nat)
    requires Consistent(s)
    ensures Consistent(WriteScore(s, e, reason, actor))
  {
    var t := WriteScore(s, e, reason, actor);
    WrittenScoreIsRecorded(s, e, reason, actor);
    forall k | k in t.scores && k != e.enrollment ensures Recorded(t.scores[k], HistoryOf(t.history, k)) {
      assert t.scores[k] == s.scores[k] && HistoryOf(t.history, k) == HistoryOf(s.history, k);
    }
  }

  lemma {:induction false} EntriesKeepConsistent(s: Store, entries: seq<Entry>, actor: nat)
    requires Consistent(s)
    ensures var r := WriteEntries(s, entries, actor);
            r.Some? ==> Consistent(r.value) && r.value.assessment == s.assessment
  {
    if entries != [] {
      var n := |entries| - 1;
      EntriesKeepConsistent(s, entries[..n], actor);
      var front := WriteEntries(s, entries[..n], actor);
      if front.Some? {
        WriteKeepsConsistent(front.value, entries[n], "", actor);
      }
    }
  }

  lemma StepKeepsConsistent(s: Store, op: Operation)
    requires Consistent(s)
    ensures Consistent(Step(s, op))
  {
    match op {
      case BulkUpsert(entries, actor) => EntriesKeepConsistent(s, entries, actor);
      case CorrectLocked(entry, reason, actor) => WriteKeepsConsistent(s, entry, reason, actor);
      case _ =>
    }
  }

  /** In every reachable state each score's revision is the number of its revision rows, and
      the rows chain from an empty start to its current value, status and note. */
  lemma {:induction false} ScoresAreRecorded(s: Store, ops: seq<Operation>)
    requires Consistent(s)
    ensures var t := Run(s, ops);
            t.history.Keys == t.scores.Keys && forall k :: k in t.scores ==> Recorded(t.scores[k], HistoryOf(t.history, k))
    decreases |ops|
  {
    if ops != [] {
      StepKeepsConsistent(s, ops[0]);
      ScoresAreRecorded(Step(s, ops[0]), ops[1..]);
    }
  }

  // ---------------------------------------------------------------- the workflow

  /** Status changes that happen during a run. */
  function Transitions(s: Store, ops: seq<Operation>): nat
    decreases |ops|
  {
    if ops == [] then 0
    else (if Step(s, ops[0]).assessment.status != s.assessment.status then 1 else 0) + Transitions(Step(s, ops[0]), ops[1..])
  }

  lemma {:induction false} EntriesKeepAssessment(s: Store, entries: seq<Entry>, actor: nat)
    ensures var r := WriteEntries(s, entries, actor);
            r.Some? ==> r.value.assessment == s.assessment && r.value.enrollments == s.enrollments
  {
    if entries != [] {
      EntriesKeepAssessment(s, entries[..|entries| - 1], actor);
    }
  }

  /** The workflow version counts the transitions. */
  lemma {:induction false} VersionCountsTransitions(s: Store, ops: seq<Operation>)
    ensures Run(s, ops).assessment.workflowVersion == s.assessment.workflowVersion + Transitions(s, ops)
    decreases |ops|
  {
    if ops != [] {
      if ops[0].BulkUpsert? {
        EntriesKeepAssessment(s, ops[0].entries, ops[0].actor);
      }
      VersionCountsTransitions(Step(s, ops[0]), ops[1..]);
    }
  }

  predicate UnderReview(status: Status) { status == Submitted || status == Approved }

  predicate NoSubmit(ops: seq<Operation>) {
    forall i :: 0 <= i < |ops| ==> !ops[i].Submit?
  }

  /** Without a submit an editable assessment stays editable, so it is never reviewed. */
  lemma {:induction false} EditableStaysEditable(s: Store, ops: seq<Operation>)
    requires NoSubmit(ops) && (s.assessment.status == Draft || s.assessment.status == Rejected)
    ensures Run(s, ops).assessment.status == s.assessment.status
    decreases |ops|
  {
    if ops != [] {
      if ops[0].BulkUpsert? {
        EntriesKeepAssessment(s, ops[0].entries, ops[0].actor);
      }
      EditableStaysEditable(Step(s, ops[0]), ops[1..]);
    }
  }

  /** Since its last submit, an assessment that is still under review has its scores and
      their history untouched, whatever else was attempted. */
  lemma {:induction false} ReviewFreezesScores(s: Store, ops: seq<Operation>)
    requires NoSubmit(ops) && UnderReview(s.assessment.status)
    requires UnderReview(Run(s, ops).assessment.status)
    ensures Run(s, ops).scores == s.scores && Run(s, ops).history == s.history
    decreases |ops|
  {
    if ops != [] {
      var t := Step(s, ops[0]);
      assert !ops[0].Submit?;
      if UnderReview(t.assessment.status) {
        ReviewFreezesScores(t, ops[1..]);
      } else if t.assessment.status == Rejected {
        EditableStaysEditable(t, ops[1..]);
      } else {
        LockedStaysLocked(t, ops[1..]);
      }
    }
  }

  /** LOCKED is terminal. */
  lemma {:induction false} LockedStaysLocked(s: Store, ops: seq<Operation>)
    requires s.assessment.status == Locked
    ensures Run(s, ops).assessment == s.assessment
    decreases |ops|
  {
    if ops != [] {
      LockedStaysLocked(Step(s, ops[0]), ops[1..]);
    }
  }

  /** The locked scores are the submitted ones, and at the lock they cover exactly the
      enrollments active on the assessment date. */
  lemma LockedScoresAreTheSubmittedOnes(s: Store, submitter: nat, at: int, ops: seq<Operation>, locker: nat, now: int)
    requires Try(s, Submit(submitter, at)).Some? && NoSubmit(ops)
    requires Try(Run(Step(s, Submit(submitter, at)), ops), Lock(locker, now)).Some?
    ensures var t := Step(Run(Step(s, Submit(submitter, at)), ops), Lock(locker, now));
            && t.assessment.status == Locked
            && t.scores == s.scores && t.history == s.history
            && EnteredEnrollments(t) == ActiveEnrollments(t) != {}
  {
    ReviewFreezesScores(Step(s, Submit(submitter, at)), ops);
  }

  /** A correction that is accepted after the lock keeps completeness exactly when it enters
      a score for an active enrollment or clears the score of an inactive one. */
  lemma CorrectionKeepsCompleteness(s: Store, e: Entry, reason: string, actor: nat)
    requires s.assessment.status == Locked && CompleteScores(s) && Try(s, CorrectLocked(e, reason, actor)).Some?
    ensures CompleteScores(Step(s, CorrectLocked(e, reason, actor)))
       <==> (e.status != NotEntered <==> e.enrollment in ActiveEnrollments(s))
  {
    var t := Step(s, CorrectLocked(e, reason, actor));
    assert ActiveEnrollments(t) == ActiveEnrollments(s);
    assert EnteredEnrollments(t)
        == if e.status != NotEntered then EnteredEnrollments(s) + {e.enrollment} else EnteredEnrollments(s) - {e.enrollment};
  }

  /** It fails when an active enrollment's score goes back to "not entered". */
  lemma CorrectionMayUndoCompleteness(s: Store, k: nat, reason: string, actor: nat)
    requires s.assessment.status == Locked && CompleteScores(s)
    requires k in s.scores && k in ActiveEnrollments(s) && |Text.Strip(reason)| >= 5
    ensures !CompleteScores(Step(s, CorrectLocked(Entry(k, None, NotEntered, ""), reason, actor)))
  {
    CorrectionKeepsCompleteness(s, Entry(k, None, NotEntered, ""), reason, actor);
  }

  /** And it fails when an enrollment that left before the date is given a score: the
      correction asks for the class only. */
  lemma CorrectionMayScoreTheInactive(s: Store, k: nat, reason: string, actor: nat)
    requires s.assessment.status == Locked && CompleteScores(s)
    requires k in s.scores && k in s.enrollments && s.enrollments[k].classSection == s.assessment.classSection
    requires k !in ActiveEnrollments(s) && |Text.Strip(reason)| >= 5 && s.assessment.maxScore >= 0.0
    ensures !CompleteScores(Step(s, CorrectLocked(Entry(k, Some(0.0), Present, ""), reason, actor)))
  {
    CorrectionKeepsCompleteness(s, Entry(k, Some(0.0), Present, ""), reason, actor);
  }

  function FirstRevision(score: Score): ScoreRevision {
    ScoreRevision(None, score.value, None, score.status, "", score.note, "", score.recordedBy, Draft)
  }

  /** A locked and complete assessment whose enrollment 2 left before the date. */
  function LockedExample(): Store {
    var entered := Score(Some(3.0), Present, "", 0, 1);
    var empty := Score(None, NotEntered, "", 0, 1);
    Store(Assessment(1, 10, 20.0, Locked, 3, Some(0), Some(0), Some(0), Some(0), ""),
          map[1 := Enrollment(1, 0, None, false), 2 := Enrollment(1, 0, Some(5), false)],
          map[1 := entered, 2 := empty], map[1 := [FirstRevision(entered)], 2 := [FirstRevision(empty)]])
  }

  /** Both failing corrections are accepted there. */
  lemma BothFailuresOccur(reason: string)
    requires |Text.Strip(reason)| >= 5
    ensures Consistent(LockedExample()) && CompleteScores(LockedExample())
    ensures !CompleteScores(Step(LockedExample(), CorrectLocked(Entry(1, None, NotEntered, ""), reason, 0)))
    ensures !CompleteScores(Step(LockedExample(), CorrectLocked(Entry(2, Some(3.0), Present, ""), reason, 0)))
  {
    var s := LockedExample();
    assert ActiveEnrollments(s) == {1};
    assert EnteredEnrollments(s) == {1};
    CorrectionMayUndoCompleteness(s, 1, reason, 0);
    CorrectionKeepsCompleteness(s, Entry(2, Some(3.0), Present, ""), reason, 0);
  }
}
