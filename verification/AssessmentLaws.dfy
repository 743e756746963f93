/** What the operations on an assessment store and when they are accepted, said field by
    field: the scores and revisions of a bulk entry and of a correction, the stamps of every
    status change, and what a complete roster of scores is. */
module AssessmentLaws {
  import opened Options
  import opened Assessments
  import Text

  // ---------------------------------------------------------------- completeness

  /** The enrollment belongs to the class on the day of the assessment. */
  predicate AttendsOn(e: Enrollment, a: Assessment) {
    && e.classSection == a.classSection && e.enrolledOn <= a.date
    && (e.leftOn.Some? ==> a.date <= e.leftOn.value)
  }

  /** The scores are complete exactly when some undeleted enrollment attends, and those that
      attend are those whose score says anything but "not entered". */
  lemma CompletenessExactly(s: Store)
    ensures CompleteScores(s)
       <==> && (exists k :: k in s.enrollments && !s.enrollments[k].deleted && AttendsOn(s.enrollments[k], s.assessment))
            && forall k: nat ::
                 (k in s.scores && !s.scores[k].status.NotEntered?)
                 <==> (k in s.enrollments && !s.enrollments[k].deleted && AttendsOn(s.enrollments[k], s.assessment))
  {
    var active, entered := ActiveEnrollments(s), EnteredEnrollments(s);
    assert forall k: nat ::
        k in active <==> k in s.enrollments && !s.enrollments[k].deleted && AttendsOn(s.enrollments[k], s.assessment);
    assert forall k: nat :: k in entered <==> k in s.scores && !s.scores[k].status.NotEntered?;
    if active != {} {
      var k :| k in active;
    }
    if forall k: nat :: k in entered <==> k in active {
      assert entered == active;
    }
  }

  // ---------------------------------------------------------------- what is stored

  /** The value is one the score may have: between zero and the maximum for a present
      student, none for all others. */
  predicate FittingValue(e: Entry, maxScore: real) {
    if e.status.Present? then e.value.Some? && 0.0 <= e.value.value && e.value.value <= maxScore else e.value.None?
  }

  /** The entry is stored as it was sent, one revision later, and a revision row keeps what
      was there before, what is there now, who changed it, why, and in which status. */
  predicate Stores(s: Store, t: Store, e: Entry, reason: string, actor: nat) {
    var k := e.enrollment;
    var rows := HistoryOf(s.history, k);
    && k in t.scores && k in t.history
    && t.scores[k].value == e.value && t.scores[k].status == e.status && t.scores[k].note == e.note
    && t.scores[k].recordedBy == actor
    && t.scores[k].revision == (if k in s.scores then s.scores[k].revision + 1 else 1)
    && |t.history[k]| == |rows| + 1 && t.history[k][..|rows|] == rows
    && IsRevisionOf(s, e, reason, actor, t.history[k][|rows|])
  }

  predicate IsRevisionOf(s: Store, e: Entry, reason: string, actor: nat, r: ScoreRevision) {
    && r.newValue == e.value && r.newStatus == e.status && r.newNote == e.note
    && r.reason == reason && r.changedBy == actor && r.assessmentStatus == s.assessment.status
    && (if e.enrollment in s.scores
        then && r.oldValue == s.scores[e.enrollment].value
             && r.oldStatus == Some(s.scores[e.enrollment].status)
             && r.oldNote == s.scores[e.enrollment].note
        else r.oldValue.None? && r.oldStatus.None? && r.oldNote == "")
  }

  /** The score and the revisions of an enrollment are what they were. */
  predicate Untouched(s: Store, t: Store, k: nat) {
    && (k in t.scores <==> k in s.scores) && (k in s.scores ==> t.scores[k] == s.scores[k])
    && HistoryOf(t.history, k) == HistoryOf(s.history, k)
  }

  predicate SameFrame(s: Store, t: Store) {
    t.assessment == s.assessment && t.enrollments == s.enrollments
  }

  /** Every entry is stored and nothing else changes. */
  ghost predicate Entered(s: Store, t: Store, entries: seq<Entry>, actor: nat) {
    && SameFrame(s, t)
    && (forall i :: 0 <= i < |entries| ==> Stores(s, t, entries[i], "", actor))
    && (forall k: nat :: !Mentions(entries, k) ==> Untouched(s, t, k))
  }

  lemma OneEntryIsStored(s: Store, e: Entry, reason: string, actor: nat)
    ensures var t := WriteScore(s, e, reason, actor);
            && SameFrame(s, t) && Stores(s, t, e, reason, actor)
            && forall k: nat :: k != e.enrollment ==> Untouched(s, t, k)
  {
  }

  lemma StoresAfterOthers(s: Store, f: Store, t: Store, e: Entry, actor: nat)
    requires SameFrame(s, f) && Untouched(s, f, e.enrollment) && Stores(f, t, e, "", actor)
    ensures Stores(s, t, e, "", actor)
  {
  }

  lemma StoredStays(s: Store, f: Store, t: Store, e: Entry, actor: nat)
    requires Stores(s, f, e, "", actor) && Untouched(f, t, e.enrollment)
    requires e.enrollment in t.history
    ensures Stores(s, t, e, "", actor)
  {
  }

  lemma MentionsLast(entries: seq<Entry>, k: nat)
    requires entries != []
    ensures var n := |entries| - 1;
            Mentions(entries, k) <==> Mentions(entries[..n], k) || entries[n].enrollment == k
  {
    var n := |entries| - 1;
    assert entries[..n + 1] == entries;
    MentionsOneMore(entries, n);
  }

  lemma EnteredAddsUp(s: Store, f: Store, t: Store, entries: seq<Entry>, actor: nat)
    requires entries != []
    requires var n := |entries| - 1;
             && Entered(s, f, entries[..n], actor) && !Mentions(entries[..n], entries[n].enrollment)
             && t == WriteScore(f, entries[n], "", actor)
    ensures Entered(s, t, entries, actor)
  {
    var n := |entries| - 1;
    OneEntryIsStored(f, entries[n], "", actor);
    StoresAfterOthers(s, f, t, entries[n], actor);
    forall i | 0 <= i < n ensures Stores(s, t, entries[i], "", actor) {
      assert entries[..n][i] == entries[i];
      assert Mentions(entries[..n], entries[i].enrollment);
      StoredStays(s, f, t, entries[i], actor);
    }
    forall k: nat | !Mentions(entries, k) ensures Untouched(s, t, k) {
      MentionsLast(entries, k);
    }
  }

  lemma {:induction false} EntriesAreStored(s: Store, entries: seq<Entry>, actor: nat)
    requires WriteEntries(s, entries, actor).Some?
    ensures Entered(s, WriteEntries(s, entries, actor).value, entries, actor)
  {
    if entries != [] {
      var n := |entries| - 1;
      var f := WriteEntries(s, entries[..n], actor).value;
      EntriesAreStored(s, entries[..n], actor);
      EnteredAddsUp(s, f, WriteEntries(s, entries, actor).value, entries, actor);
    }
  }

  // ---------------------------------------------------------------- what is accepted

  predicate NoneTwice(entries: seq<Entry>) {
    forall i, j :: 0 <= i < j < |entries| ==> entries[i].enrollment != entries[j].enrollment
  }

  /** The entry is for an enrollment that attends, with a value it may have; an enrollment
      that was deleted is not excluded here. */
  predicate Admissible(s: Store, e: Entry) {
    && e.enrollment in s.enrollments && AttendsOn(s.enrollments[e.enrollment], s.assessment)
    && FittingValue(e, s.assessment.maxScore)
  }

  lemma NoneTwiceOfMore(entries: seq<Entry>)
    requires entries != []
    ensures var n := |entries| - 1;
            NoneTwice(entries) <==> NoneTwice(entries[..n]) && !Mentions(entries[..n], entries[n].enrollment)
  {
    var n := |entries| - 1;
    if NoneTwice(entries) {
      forall i | 0 <= i < n ensures entries[..n][i].enrollment != entries[n].enrollment {
      }
    }
    if NoneTwice(entries[..n]) && !Mentions(entries[..n], entries[n].enrollment) {
      forall i, j | 0 <= i < j < |entries| ensures entries[i].enrollment != entries[j].enrollment {
        assert entries[..n][i].enrollment == entries[i].enrollment;
        assert j < n ==> entries[..n][j] == entries[j];
      }
    }
  }

  lemma {:induction false} EntriesAreAcceptedExactly(s: Store, entries: seq<Entry>, actor: nat)
    ensures WriteEntries(s, entries, actor).Some?
       <==> NoneTwice(entries) && forall i :: 0 <= i < |entries| ==> Admissible(s, entries[i])
  {
    if entries != [] {
      var n := |entries| - 1;
      EntriesAreAcceptedExactly(s, entries[..n], actor);
      EntriesKeepAssessment(s, entries[..n], actor);
      assert forall i :: 0 <= i < n ==> entries[..n][i] == entries[i];
      NoneTwiceOfMore(entries);
    }
  }

  /** A bulk entry is accepted exactly when the assessment is a draft or was rejected, no
      enrollment is sent twice, and every entry is admissible; then every entry is stored as
      sent and everything else is as it was. */
  lemma BulkUpsertExactly(s: Store, entries: seq<Entry>, actor: nat)
    ensures var r := Try(s, BulkUpsert(entries, actor));
            && (r.Some? <==>
                  && (s.assessment.status.Draft? || s.assessment.status.Rejected?)
                  && NoneTwice(entries) && forall i :: 0 <= i < |entries| ==> Admissible(s, entries[i]))
            && (r.Some? ==> Entered(s, r.value, entries, actor))
  {
    EntriesAreAcceptedExactly(s, entries, actor);
    if Try(s, BulkUpsert(entries, actor)).Some? {
      EntriesAreStored(s, entries, actor);
    }
  }

  /** A correction is accepted exactly for an existing score of a locked assessment, with a
      reason of five characters or more, an enrollment of the class and a fitting value; then
      the score is stored as sent, with the reason, and everything else is as it was. */
  lemma CorrectionExactly(s: Store, e: Entry, reason: string, actor: nat)
    ensures var r := Try(s, CorrectLocked(e, reason, actor));
            && (r.Some? <==>
                  && s.assessment.status.Locked? && e.enrollment in s.scores && |Text.Strip(reason)| >= 5
                  && e.enrollment in s.enrollments
                  && s.enrollments[e.enrollment].classSection == s.assessment.classSection
                  && FittingValue(e, s.assessment.maxScore))
            && (r.Some? ==>
                  && SameFrame(s, r.value) && Stores(s, r.value, e, reason, actor)
                  && forall k: nat :: k != e.enrollment ==> Untouched(s, r.value, k))
  {
    OneEntryIsStored(s, e, reason, actor);
  }

  // ---------------------------------------------------------------- the status changes

  /** The four status changes: from which status each is accepted, what it stamps and what it
      clears; each adds one to the version and leaves everything else. */
  lemma TransitionsExactly(s: Store, actor: nat, reason: string, now: int)
    ensures var a, status := s.assessment, s.assessment.status;
            && Try(s, Submit(actor, now))
                 == (if (status.Draft? || status.Rejected?) && CompleteScores(s)
                     then Some(s.(assessment := a.(status := Submitted, workflowVersion := a.workflowVersion + 1,
                                                   submittedAt := Some(now), rejectionReason := "")))
                     else None)
            && Try(s, Approve(actor, now))
                 == (if status.Submitted?
                     then Some(s.(assessment := a.(status := Approved, workflowVersion := a.workflowVersion + 1,
                                                   reviewedAt := Some(now), reviewedBy := Some(actor), rejectionReason := "")))
                     else None)
            && Try(s, Reject(actor, reason, now))
                 == (if status.Submitted? && Text.Strip(reason) != ""
                     then Some(s.(assessment := a.(status := Rejected, workflowVersion := a.workflowVersion + 1,
                                                   reviewedAt := Some(now), reviewedBy := Some(actor), rejectionReason := reason)))
                     else None)
            && Try(s, Lock(actor, now))
                 == (if status.Approved? && CompleteScores(s)
                     then Some(s.(assessment := a.(status := Locked, workflowVersion := a.workflowVersion + 1,
                                                   lockedAt := Some(now), reviewedBy := Some(actor))))
                     else None)
  {
  }
}
