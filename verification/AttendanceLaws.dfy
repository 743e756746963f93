/** What the attendance operations store and when they are accepted, said field by field:
    the records of a bulk request and of a correction, the course of an excuse, and the
    closing of a session. */
module AttendanceLaws {
  import opened Options
  import opened Attendance

  // ---------------------------------------------------------------- fields

  /** The whole minutes from one time of day to another, none when it is not later. */
  predicate IsMinutes(minutes: nat, from: int, to: int) {
    if to <= from then minutes == 0 else 60 * minutes <= to - from < 60 * (minutes + 1)
  }

  lemma MinutesAreWhole(from: int, to: int)
    ensures IsMinutes(MinutesBetween(from, to), from, to)
  {
  }

  /** The times of a record: those given for a present student, with the late and early
      minutes counted against the timetable where both times are known; none for an absent one. */
  predicate HasTimes(s: Session, r: Record, arrival: Option<int>, departure: Option<int>, late: nat, early: nat) {
    if !r.status.Present? then r.arrival.None? && r.departure.None? && r.late == 0 && r.early == 0
    else
      && r.arrival == arrival && r.departure == departure
      && (if arrival.Some? && s.startsAt.Some? then IsMinutes(r.late, s.startsAt.value, arrival.value) else r.late == late)
      && (if departure.Some? && s.endsAt.Some? then IsMinutes(r.early, departure.value, s.endsAt.value) else r.early == early)
  }

  predicate HasNoExcuse(r: Record) {
    && r.excuse.NotRequired? && r.absenceReason == "" && r.excuseBy.None? && r.excuseAt.None?
    && r.reviewedBy.None? && r.reviewedAt.None? && r.reviewNote == ""
  }

  /** The snapshot shows the record as it is. */
  predicate Shows(x: Snapshot, r: Record) {
    && x.status == r.status && x.arrival == r.arrival && x.departure == r.departure
    && x.late == r.late && x.early == r.early && x.note == r.note && x.absenceReason == r.absenceReason
    && x.excuse == r.excuse && x.reviewNote == r.reviewNote && x.revision == r.revision
  }

  /** The record and its revisions are what they were. */
  predicate Untouched(s: Store, t: Store, key: Key) {
    && (key in t.records <==> key in s.records) && (key in s.records ==> t.records[key] == s.records[key])
    && HistoryOf(t.history, key) == HistoryOf(s.history, key)
  }

  predicate SameFrame(s: Store, t: Store) {
    t.sessions == s.sessions && t.enrollments == s.enrollments
  }

  /** A record was written: a change of an existing one leaves one more revision with both
      sides, the reason and who changed it; a new one leaves none. */
  predicate IsAudited(s: Store, t: Store, key: Key, reason: string, actor: nat) {
    var rows := HistoryOf(s.history, key);
    && key in t.records
    && if key in s.records
       then && key in t.history && |t.history[key]| == |rows| + 1 && t.history[key][..|rows|] == rows
            && Shows(t.history[key][|rows|].before, s.records[key])
            && Shows(t.history[key][|rows|].after, t.records[key])
            && t.history[key][|rows|].reason == reason && t.history[key][|rows|].changedBy == actor
            && t.records[key].revision == s.records[key].revision + 1
       else HistoryOf(t.history, key) == rows && t.records[key].revision == 1
  }

  lemma SavedIsAudited(s: Store, key: Key, r: Record, reason: string, actor: nat)
    requires r.revision == if key in s.records then s.records[key].revision + 1 else 1
    ensures var t := Save(s, key, r, reason, actor);
            && SameFrame(s, t) && t.evidence == s.evidence
            && key in t.records && t.records[key] == r && IsAudited(s, t, key, reason, actor)
            && forall other: Key :: other != key ==> Untouched(s, t, other)
  {
  }

  // ---------------------------------------------------------------- bulk recording

  /** The record holds what the request says of the student. */
  predicate HoldsItem(s: Session, r: Record, item: Item, actor: nat) {
    && r.status == item.status && r.note == item.note && r.recordedBy == actor
    && HasTimes(s, r, item.arrival, item.departure, item.late, item.early)
    && HasNoExcuse(r)
  }

  /** The enrollment belongs to the class, school and year of the session on its day. */
  predicate Attends(enrollments: map<nat, Enrollment>, s: Session, enrollment: nat) {
    && enrollment in enrollments
    && var e := enrollments[enrollment];
       && e.school == s.school && e.academicYear == s.academicYear && e.classSection == s.classSection
       && !e.deleted && e.enrolledOn <= s.date && (e.leftOn.Some? ==> s.date <= e.leftOn.value)
  }

  /** A student is recorded as present or absent; an excuse is not recorded this way, and a
      record that is in the course of one is not overwritten. */
  predicate IsRecordable(records: map<Key, Record>, session: nat, item: Item) {
    && !item.status.AbsentExcused?
    && ((session, item.enrollment) in records ==> records[(session, item.enrollment)].excuse.NotRequired?)
  }

  predicate WritesItem(s: Store, t: Store, session: nat, item: Item, actor: nat)
    requires session in s.sessions
  {
    var key := (session, item.enrollment);
    && IsAudited(s, t, key, BULK_REASON, actor)
    && HoldsItem(s.sessions[session], t.records[key], item, actor)
  }

  predicate Lists(items: seq<Item>, session: nat, key: Key) {
    key.0 == session && exists i :: 0 <= i < |items| && items[i].enrollment == key.1
  }

  /** Every item is written and nothing else changes. */
  ghost predicate Writes(s: Store, t: Store, session: nat, items: seq<Item>, actor: nat)
    requires session in s.sessions
  {
    && SameFrame(s, t) && t.evidence == s.evidence
    && (forall i :: 0 <= i < |items| ==> WritesItem(s, t, session, items[i], actor))
    && (forall key: Key :: !Lists(items, session, key) ==> Untouched(s, t, key))
  }

  lemma ItemIsWritten(s: Store, session: nat, item: Item, actor: nat)
    requires session in s.sessions
    ensures var t := SaveItem(s, session, item, actor);
            && SameFrame(s, t) && t.evidence == s.evidence && WritesItem(s, t, session, item, actor)
            && forall key: Key :: key != (session, item.enrollment) ==> Untouched(s, t, key)
  {
    var key := (session, item.enrollment);
    var r := Recorded(s.sessions[session], Find(s.records, key), item, actor);
    SavedIsAudited(s, key, r, BULK_REASON, actor);
  }

  lemma ItemIsAcceptedExactly(s: Store, session: nat, item: Item, actor: nat)
    requires session in s.sessions
    ensures ItemAccepted(s, session, item, actor) <==> IsRecordable(s.records, session, item)
  {
  }

  lemma WritesAddUp(s: Store, f: Store, t: Store, session: nat, items: seq<Item>, actor: nat)
    requires session in s.sessions && items != [] && DistinctItems(items)
    requires var n := |items| - 1;
             Writes(s, f, session, items[..n], actor) && t == SaveItem(f, session, items[n], actor)
    ensures Writes(s, t, session, items, actor)
  {
    var n := |items| - 1;
    var key := (session, items[n].enrollment);
    ItemIsWritten(f, session, items[n], actor);
    assert !Lists(items[..n], session, key);
    forall i | 0 <= i < |items| ensures WritesItem(s, t, session, items[i], actor) {
      if i < n {
        assert items[..n][i] == items[i];
        assert Untouched(f, t, (session, items[i].enrollment));
      }
    }
    forall other: Key | !Lists(items, session, other) ensures Untouched(s, t, other) {
      ListsMore(items, session, other);
    }
  }

  lemma ListsMore(items: seq<Item>, session: nat, key: Key)
    requires items != []
    ensures var n := |items| - 1;
            Lists(items, session, key) <==> Lists(items[..n], session, key) || key == (session, items[n].enrollment)
  {
    var n := |items| - 1;
    if Lists(items[..n], session, key) {
      var i :| 0 <= i < n && items[..n][i].enrollment == key.1;
      assert items[i].enrollment == key.1;
    }
    if Lists(items, session, key) {
      var i :| 0 <= i < |items| && items[i].enrollment == key.1;
      if i < n {
        assert items[..n][i].enrollment == key.1;
      }
    }
  }

  lemma {:induction false} ItemsAreWrittenExactly(s: Store, session: nat, items: seq<Item>, actor: nat)
    requires session in s.sessions && DistinctItems(items)
    ensures var r := SaveItems(s, session, items, actor);
            && (r.Some? <==> forall i :: 0 <= i < |items| ==> IsRecordable(s.records, session, items[i]))
            && (r.Some? ==> Writes(s, r.value, session, items, actor))
  {
    if items != [] {
      var n := |items| - 1;
      var front := SaveItems(s, session, items[..n], actor);
      ItemsAreWrittenExactly(s, session, items[..n], actor);
      assert forall i :: 0 <= i < n ==> items[..n][i] == items[i];
      if front.Some? {
        ItemIsAcceptedExactly(front.value, session, items[n], actor);
        assert !Lists(items[..n], session, (session, items[n].enrollment));
        assert Untouched(s, front.value, (session, items[n].enrollment));
        if IsRecordable(s.records, session, items[n]) {
          WritesAddUp(s, front.value, SaveItems(s, session, items, actor).value, session, items, actor);
        }
      }
    }
  }

  /** A bulk request is accepted exactly for a draft session and students of its class, each
      named once and recordable; then every record holds what was sent and nothing else changes. */
  lemma BulkExactly(s: Store, session: nat, items: seq<Item>, actor: nat)
    ensures var r := Try(s, Bulk(session, items, actor));
            && (r.Some? <==>
                  && session in s.sessions && s.sessions[session].status.Draft?
                  && (forall i, j :: 0 <= i < j < |items| ==> items[i].enrollment != items[j].enrollment)
                  && (forall i :: 0 <= i < |items| ==> Attends(s.enrollments, s.sessions[session], items[i].enrollment))
                  && forall i :: 0 <= i < |items| ==> IsRecordable(s.records, session, items[i]))
            && (r.Some? ==> Writes(s, r.value, session, items, actor))
  {
    if session in s.sessions && DistinctItems(items) {
      ItemsAreWrittenExactly(s, session, items, actor);
      AttendingIsActive(s, session, items);
    }
  }

  lemma AttendingIsActive(s: Store, session: nat, items: seq<Item>)
    requires session in s.sessions
    ensures AllActive(s, session, items)
       <==> forall i :: 0 <= i < |items| ==> Attends(s.enrollments, s.sessions[session], items[i].enrollment)
  {
  }

  // ---------------------------------------------------------------- one record

  lemma CorrectedHolds(session: Session, was: Record, c: Correction, actor: nat)
    ensures var r := Corrected(session, was, c, actor);
            && r.status == (if c.status.Some? then c.status.value else was.status) && HasNoExcuse(r)
            && r.note == (if c.note.Some? then c.note.value else was.note)
            && r.recordedBy == actor && r.revision == was.revision + 1
            && HasTimes(session, r,
                        if c.arrival.Some? then c.arrival.value else was.arrival,
                        if c.departure.Some? then c.departure.value else was.departure,
                        if c.late.Some? then c.late.value else was.late,
                        if c.early.Some? then c.early.value else was.early)
            && (Clean(r) <==> !r.status.AbsentExcused?)
  {
  }

  /** A correction overwrites the fields it carries, counts the minutes anew, ends any excuse,
      and is refused exactly when the student would be excused without one. */
  lemma CorrectionExactly(s: Store, key: Key, c: Correction, reason: string, actor: nat)
    requires key in s.records && key.0 in s.sessions
    ensures var r, was := Try(s, Correct(key, c, reason, actor)), s.records[key];
            var status := if c.status.Some? then c.status.value else was.status;
            && (r.Some? <==> !status.AbsentExcused?)
            && (r.Some? ==>
                  && SameFrame(s, r.value) && r.value.evidence == s.evidence
                  && IsAudited(s, r.value, key, reason, actor)
                  && r.value.records[key].status == status && HasNoExcuse(r.value.records[key])
                  && r.value.records[key].note == (if c.note.Some? then c.note.value else was.note)
                  && r.value.records[key].recordedBy == actor
                  && HasTimes(s.sessions[key.0], r.value.records[key],
                              if c.arrival.Some? then c.arrival.value else was.arrival,
                              if c.departure.Some? then c.departure.value else was.departure,
                              if c.late.Some? then c.late.value else was.late,
                              if c.early.Some? then c.early.value else was.early)
                  && forall other: Key :: other != key ==> Untouched(s, r.value, other))
  {
    var t := Corrected(s.sessions[key.0], s.records[key], c, actor);
    CorrectedHolds(s.sessions[key.0], s.records[key], c, actor);
    SavedIsAudited(s, key, t, reason, actor);
  }

  /** An excuse can be asked for exactly for an absence and with a reason; the record waits
      for the review as an unexcused absence, and the files are kept. */
  lemma SubmitExactly(s: Store, key: Key, reason: string, files: nat, actor: nat, now: int)
    requires Consistent(s) && key in s.records
    ensures var r, was := Try(s, Submit(key, reason, files, actor, now)), s.records[key];
            && (r.Some? <==> !was.status.Present? && reason != "")
            && (r.Some? ==>
                  && SameFrame(s, r.value) && IsAudited(s, r.value, key, SUBMIT_REASON, actor)
                  && r.value.records[key]
                       == was.(status := AbsentUnexcused, excuse := Pending, absenceReason := reason,
                               excuseBy := Some(actor), excuseAt := Some(now),
                               reviewedBy := None, reviewedAt := None, reviewNote := "", revision := was.revision + 1)
                  && r.value.evidence == s.evidence[key := (if key in s.evidence then s.evidence[key] else 0) + files]
                  && forall other: Key :: other != key ==> Untouched(s, r.value, other))
  {
    SavedIsAudited(s, key, ExcuseSubmitted(s.records[key], reason, actor, now), SUBMIT_REASON, actor);
  }

  /** A pending excuse can always be rejected, and approved unless evidence is required and
      missing; an approved one makes the absence excused, a rejected one unexcused. */
  lemma ReviewExactly(s: Store, key: Key, approved: bool, evidenceRequired: bool, note: string, actor: nat, now: int)
    requires Consistent(s) && key in s.records
    ensures var r, was := Try(s, Review(key, approved, evidenceRequired, note, actor, now)), s.records[key];
            && (r.Some? <==>
                  was.excuse.Pending?
                  && (approved && evidenceRequired ==> key in s.evidence && s.evidence[key] > 0))
            && (r.Some? ==>
                  && SameFrame(s, r.value) && r.value.evidence == s.evidence
                  && IsAudited(s, r.value, key, if approved then APPROVE_REASON else REJECT_REASON, actor)
                  && (approved ==> r.value.records[key].status.AbsentExcused? && r.value.records[key].excuse.Approved?)
                  && (!approved ==> r.value.records[key].status.AbsentUnexcused? && r.value.records[key].excuse.Rejected?)
                  && r.value.records[key]
                       == was.(status := r.value.records[key].status, excuse := r.value.records[key].excuse,
                               reviewedBy := Some(actor), reviewedAt := Some(now), reviewNote := note,
                               revision := was.revision + 1)
                  && forall other: Key :: other != key ==> Untouched(s, r.value, other))
  {
    SavedIsAudited(s, key, ExcuseReviewed(s.records[key], approved, note, actor, now),
                   if approved then APPROVE_REASON else REJECT_REASON, actor);
  }

  // ---------------------------------------------------------------- closing a session

  /** A draft session is finalised exactly when the students with a record are those that
      attend; it is then stamped, and nothing else changes. */
  lemma FinalizeExactly(s: Store, x: nat, actor: nat, now: int)
    requires x in s.sessions
    ensures var r, was := Try(s, Finalize(x, actor, now)), s.sessions[x];
            && (r.Some? <==> was.status.Draft? && forall e: nat :: Attends(s.enrollments, was, e) <==> (x, e) in s.records)
            && (r.Some? ==>
                  r.value == s.(sessions := s.sessions[x := was.(status := Finalized, finalizedBy := Some(actor),
                                                                 finalizedAt := Some(now))]))
  {
    var active, recorded := ActiveEnrollments(s.enrollments, s.sessions[x]), RecordedIn(s.records, x);
    assert forall e: nat :: e in active <==> Attends(s.enrollments, s.sessions[x], e);
    forall e: nat ensures e in recorded <==> (x, e) in s.records {
      if (x, e) in s.records {
        assert (x, e).1 in recorded;
      }
    }
    if forall e: nat :: e in active <==> e in recorded {
      assert active == recorded;
    }
  }

  /** A draft session is cancelled; the reason joins its notes on a line of its own. */
  lemma CancelExactly(s: Store, x: nat, reason: string)
    requires x in s.sessions
    ensures var r, was := Try(s, Cancel(x, reason)), s.sessions[x];
            && (r.Some? <==> was.status.Draft?)
            && (r.Some? ==>
                  && r.value == s.(sessions := s.sessions[x := r.value.sessions[x]])
                  && r.value.sessions[x] == was.(status := Cancelled, notes := r.value.sessions[x].notes)
                  && (was.notes == "" ==> r.value.sessions[x].notes == "لغو: " + reason)
                  && (was.notes != "" ==> r.value.sessions[x].notes == was.notes + "\nلغو: " + reason))
  {
    var r := Try(s, Cancel(x, reason));
    if r.Some? {
      var was := s.sessions[x];
      assert was.notes + "\n" + "لغو: " + reason == was.notes + "\nلغو: " + reason;
    }
  }
}
