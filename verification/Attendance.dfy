/** Attendance sessions and records.  A session is opened as a draft, filled by bulk
    recording, then finalised or cancelled.  A record can be corrected, and an absence can
    be excused on request; every change leaves a revision with both snapshots. */
module Attendance {
  import opened Options

  datatype SessionStatus = Draft | Finalized | Cancelled

  datatype Session = Session(
    school: nat, academicYear: nat, classSection: nat, date: int,
    startsAt: Option<int>, endsAt: Option<int>,
    status: SessionStatus, finalizedBy: Option<nat>, finalizedAt: Option<int>, notes: string)

  datatype Enrollment = Enrollment(
    school: nat, academicYear: nat, classSection: nat,
    enrolledOn: int, leftOn: Option<int>, deleted: bool)

  datatype RecordStatus = Present | AbsentExcused | AbsentUnexcused

  datatype ExcuseStatus = NotRequired | Pending | Approved | Rejected

  /** Times of day are in seconds. */
  datatype Record = Record(
    status: RecordStatus,
    arrival: Option<int>, departure: Option<int>, late: nat, early: nat,
    note: string, absenceReason: string,
    excuse: ExcuseStatus, excuseBy: Option<nat>, excuseAt: Option<int>,
    reviewedBy: Option<nat>, reviewedAt: Option<int>, reviewNote: string,
    recordedBy: nat, revision: nat)

  /** The audited part of a record. */
  datatype Snapshot = Snapshot(
    status: RecordStatus, arrival: Option<int>, departure: Option<int>, late: nat, early: nat,
    note: string, absenceReason: string, excuse: ExcuseStatus, reviewNote: string, revision: nat)

  datatype Revision = Revision(before: Snapshot, after: Snapshot, reason: string, changedBy: nat)

  function SnapshotOf(r: Record): Snapshot {
    Snapshot(r.status, r.arrival, r.departure, r.late, r.early, r.note, r.absenceReason,
             r.excuse, r.reviewNote, r.revision)
  }

  /** A record is identified by its session and its enrollment. */
  type Key = (nat, nat)

  datatype Store = Store(
    sessions: map<nat, Session>,
    enrollments: map<nat, Enrollment>,
    records: map<Key, Record>,
    history: map<Key, seq<Revision>>,
    evidence: map<Key, nat>)

  // ---------------------------------------------------------------- rules

  /** Enrolled in the class of the session on its date. */
  predicate ActiveFor(e: Enrollment, s: Session) {
    && e.school == s.school && e.academicYear == s.academicYear && e.classSection == s.classSection
    && e.enrolledOn <= s.date && !e.deleted
    && (e.leftOn == None || e.leftOn.value >= s.date)
  }

  function ActiveEnrollments(enrollments: map<nat, Enrollment>, s: Session): set<nat> {
    set e | e in enrollments && ActiveFor(enrollments[e], s)
  }

  /** The enrollments that have a record in a session. */
  function RecordedIn(records: map<Key, Record>, session: nat): set<nat> {
    set k | k in records && k.0 == session :: k.1
  }

  /** The model's own validation, run before every save. */
  predicate Clean(r: Record) {
    && (if r.status != Present
        then r.arrival == None && r.departure == None && r.late == 0 && r.early == 0
        else r.excuse == NotRequired && r.absenceReason == "")
    && (r.status == AbsentExcused ==> r.excuse == Approved)
    && (r.excuse == Approved ==> r.status == AbsentExcused && r.reviewedBy.Some? && r.reviewedAt.Some?)
    && (r.excuse == Pending || r.excuse == Rejected ==> r.status == AbsentUnexcused)
    && (r.excuse == Pending ==> r.absenceReason != "" && r.excuseAt.Some?)
  }

  function MinutesBetween(from: int, to: int): nat {
    if to < from then 0 else (to - from) / 60
  }

  /** What a request says about one student. */
  datatype Item = Item(enrollment: nat, status: RecordStatus, arrival: Option<int>, departure: Option<int>,
                       late: nat, early: nat, note: string)

  /** Late and early minutes follow from the times when the session has a timetable; an
      absent student has none. */
  function Timed(s: Session, r: Record): Record {
    if r.status != Present then r.(arrival := None, departure := None, late := 0, early := 0)
    else r.(late := if r.arrival.Some? && s.startsAt.Some?
                    then MinutesBetween(s.startsAt.value, r.arrival.value) else r.late,
            early := if r.departure.Some? && s.endsAt.Some?
                     then MinutesBetween(r.departure.value, s.endsAt.value) else r.early)
  }

  function WithoutExcuse(r: Record): Record {
    r.(absenceReason := "", excuse := NotRequired, excuseBy := None, excuseAt := None,
       reviewedBy := None, reviewedAt := None, reviewNote := "")
  }

  /** The record a bulk item writes over an existing record, or creates. */
  function Recorded(s: Session, existing: Option<Record>, item: Item, actor: nat): Record {
    var revision := if existing.Some? then existing.value.revision + 1 else 1;
    Timed(s, Record(item.status, item.arrival, item.departure, item.late, item.early, item.note, "",
                    NotRequired, None, None, None, None, "", actor, revision))
  }

  function Find(records: map<Key, Record>, key: Key): Option<Record> {
    if key in records then Some(records[key]) else None
  }

  function HistoryOf(history: map<Key, seq<Revision>>, key: Key): seq<Revision> {
    if key in history then history[key] else []
  }

  predicate ItemAccepted(store: Store, session: nat, item: Item, actor: nat)
    requires session in store.sessions
  {
    var existing := Find(store.records, (session, item.enrollment));
    && (existing.Some? ==> existing.value.excuse == NotRequired)
    && Clean(Recorded(store.sessions[session], existing, item, actor))
  }

  const BULK_REASON := "اصلاح از طریق ثبت گروهی حضور و غیاب"

  /** Stores a record; a change of an existing one adds a revision. */
  function Save(store: Store, key: Key, r: Record, reason: string, actor: nat): Store {
    var existing := Find(store.records, key);
    store.(records := store.records[key := r],
           history := if existing.Some?
                      then store.history[key := HistoryOf(store.history, key)
                             + [Revision(SnapshotOf(existing.value), SnapshotOf(r), reason, actor)]]
                      else store.history)
  }

  function SaveItem(store: Store, session: nat, item: Item, actor: nat): Store
    requires session in store.sessions
  {
    var key := (session, item.enrollment);
    Save(store, key, Recorded(store.sessions[session], Find(store.records, key), item, actor), BULK_REASON, actor)
  }

  /** All items in order, or nothing when one of them is refused. */
  function SaveItems(store: Store, session: nat, items: seq<Item>, actor: nat): (r: Option<Store>)
    requires session in store.sessions
    ensures r.Some? ==> r.value.sessions == store.sessions
  {
    if items == [] then Some(store)
    else
      var n := |items| - 1;
      var front := SaveItems(store, session, items[..n], actor);
      if front.Some? && ItemAccepted(front.value, session, items[n], actor)
      then Some(SaveItem(front.value, session, items[n], actor)) else None
  }

  predicate DistinctItems(items: seq<Item>) {
    forall i, j :: 0 <= i < j < |items| ==> items[i].enrollment != items[j].enrollment
  }

  predicate AllActive(store: Store, session: nat, items: seq<Item>)
    requires session in store.sessions
  {
    forall i :: 0 <= i < |items| ==>
      items[i].enrollment in store.enrollments && ActiveFor(store.enrollments[items[i].enrollment], store.sessions[session])
  }

  /** The fields a correction may carry. */
  datatype Correction = Correction(
    status: Option<RecordStatus>, arrival: Option<Option<int>>, departure: Option<Option<int>>,
    late: Option<nat>, early: Option<nat>, note: Option<string>)

  function Or<T>(o: Option<T>, default: T): T {
    if o.Some? then o.value else default
  }

  function Corrected(s: Session, r: Record, c: Correction, actor: nat): Record {
    var changed := r.(status := Or(c.status, r.status), arrival := Or(c.arrival, r.arrival),
                      departure := Or(c.departure, r.departure), late := Or(c.late, r.late),
                      early := Or(c.early, r.early), note := Or(c.note, r.note));
    WithoutExcuse(Timed(s, changed)).(recordedBy := actor, revision := r.revision + 1)
  }

  function ExcuseSubmitted(r: Record, reason: string, actor: nat, now: int): Record {
    r.(status := AbsentUnexcused, absenceReason := reason, excuse := Pending,
       excuseBy := Some(actor), excuseAt := Some(now),
       reviewedBy := None, reviewedAt := None, reviewNote := "", revision := r.revision + 1)
  }

  function ExcuseReviewed(r: Record, approved: bool, note: string, actor: nat, now: int): Record {
    r.(reviewedBy := Some(actor), reviewedAt := Some(now), reviewNote := note,
       status := if approved then AbsentExcused else AbsentUnexcused,
       excuse := if approved then Approved else Rejected, revision := r.revision + 1)
  }

  function CancelNotes(notes: string, reason: string): string {
    if notes == "" then "لغو: " + reason else notes + "\n" + "لغو: " + reason
  }

  const SUBMIT_REASON := "ثبت درخواست توجیه غیبت"
  const APPROVE_REASON := "تأیید غیبت موجه"
  const REJECT_REASON := "رد درخواست توجیه غیبت"

  // ---------------------------------------------------------------- operations on the store

  datatype Operation =
    | Open(session: nat, draft: Session)
    | Reenroll(enrollments: map<nat, Enrollment>)
    | Bulk(session: nat, items: seq<Item>, actor: nat)
    | Correct(key: Key, correction: Correction, reason: string, actor: nat)
    | Finalize(session: nat, actor: nat, now: int)
    | Cancel(session: nat, reason: string)
    | Submit(key: Key, reason: string, files: nat, actor: nat, now: int)
    | Review(key: Key, approved: bool, evidenceRequired: bool, note: string, actor: nat, now: int)

  /** What an operation makes of the store; nothing when it is refused. */
  function Try(store: Store, op: Operation): Option<Store> {
    match op
    case Open(x, draft) =>
      if x !in store.sessions && draft.status == Draft && RecordedIn(store.records, x) == {}
      then Some(store.(sessions := store.sessions[x := draft])) else None
    case Reenroll(enrollments) => Some(store.(enrollments := enrollments))
    case Bulk(x, items, actor) =>
      if x in store.sessions && store.sessions[x].status == Draft && DistinctItems(items) && AllActive(store, x, items)
      then SaveItems(store, x, items, actor) else None
    case Correct(key, correction, reason, actor) =>
      if key in store.records && key.0 in store.sessions
         && Clean(Corrected(store.sessions[key.0], store.records[key], correction, actor))
      then Some(Save(store, key, Corrected(store.sessions[key.0], store.records[key], correction, actor), reason, actor))
      else None
    case Finalize(x, actor, now) =>
      if x in store.sessions && store.sessions[x].status == Draft
         && ActiveEnrollments(store.enrollments, store.sessions[x]) == RecordedIn(store.records, x)
      then Some(store.(sessions := store.sessions[x :=
                  store.sessions[x].(status := Finalized, finalizedBy := Some(actor), finalizedAt := Some(now))]))
      else None
    case Cancel(x, reason) =>
      if x in store.sessions && store.sessions[x].status == Draft
      then Some(store.(sessions := store.sessions[x :=
                  store.sessions[x].(status := Cancelled, notes := CancelNotes(store.sessions[x].notes, reason))]))
      else None
    case Submit(key, reason, files, actor, now) =>
      if key in store.records && store.records[key].status != Present
         && Clean(ExcuseSubmitted(store.records[key], reason, actor, now))
      then Some(Save(store, key, ExcuseSubmitted(store.records[key], reason, actor, now), SUBMIT_REASON, actor)
                .(evidence := store.evidence[key := EvidenceOf(store.evidence, key) + files]))
      else None
    case Review(key, approved, evidenceRequired, note, actor, now) =>
      if key in store.records && store.records[key].excuse == Pending
         && !(approved && evidenceRequired && EvidenceOf(store.evidence, key) == 0)
         && Clean(ExcuseReviewed(store.records[key], approved, note, actor, now))
      then Some(Save(store, key, ExcuseReviewed(store.records[key], approved, note, actor, now),
                     if approved then APPROVE_REASON else REJECT_REASON, actor))
      else None
  }

  function EvidenceOf(evidence: map<Key, nat>, key: Key): nat {
    if key in evidence then evidence[key] else 0
  }

  /** A refused operation is rolled back. */
  function Step(store: Store, op: Operation): Store {
    var r := Try(store, op);
    if r.Some? then r.value else store
  }

  function Run(store: Store, ops: seq<Operation>): Store
    decreases |ops|
  {
    if ops == [] then store else Run(Step(store, ops[0]), ops[1..])
  }

  // ---------------------------------------------------------------- the service

  lemma {:induction false} RefusedItemRefusesAll(store: Store, session: nat, items: seq<Item>, i: nat, actor: nat)
    requires session in store.sessions && i < |items|
    requires SaveItems(store, session, items[..i + 1], actor) == None
    ensures SaveItems(store, session, items, actor) == None
    decreases |items|
  {
    var n := |items| - 1;
    if i < n {
      assert items[..n][..i + 1] == items[..i + 1];
      RefusedItemRefusesAll(store, session, items[..n], i, actor);
    } else {
      assert items[..i + 1] == items;
    }
  }

  /** The tables and the service functions, each one transaction. */
  class AttendanceService {
    var sessions: map<nat, Session>
    var enrollments: map<nat, Enrollment>
    var records: map<Key, Record>
    var history: map<Key, seq<Revision>>
    var evidence: map<Key, nat>

    function Stored(): Store
      reads this
    {
      Store(sessions, enrollments, records, history, evidence)
    }

    /** One pass over the items; the tables are only written once all are accepted. */
    method BulkRecord(session: nat, items: seq<Item>, actor: nat) returns (ok: bool)
      requires session in sessions
      modifies this`records, this`history
      ensures ok <==> Try(old(Stored()), Bulk(session, items, actor)).Some?
      ensures Stored() == Step(old(Stored()), Bulk(session, items, actor))
    {
      var s := sessions[session];
      if s.status != Draft || !DistinctItems(items) || !AllActive(Stored(), session, items) {
        return false;
      }
      var newRecords, newHistory := records, history;
      ghost var start := Stored();
      for i := 0 to |items|
        invariant SaveItems(start, session, items[..i], actor)
               == Some(start.(records := newRecords, history := newHistory))
      {
        var item := items[i];
        var key := (session, item.enrollment);
        var existing := Find(newRecords, key);
        assert items[..i + 1][..i] == items[..i];
        if existing.Some? && existing.value.excuse != NotRequired {
          RefusedItemRefusesAll(start, session, items, i, actor);
          return false;
        }
        var record := Recorded(s, existing, item, actor);
        if !Clean(record) {
          RefusedItemRefusesAll(start, session, items, i, actor);
          return false;
        }
        newRecords := newRecords[key := record];
        if existing.Some? {
          newHistory := newHistory[key := HistoryOf(newHistory, key)
                          + [Revision(SnapshotOf(existing.value), SnapshotOf(record), BULK_REASON, actor)]];
        }
      }
      assert items[..|items|] == items;
      records, history := newRecords, newHistory;
      return true;
    }

    method CorrectRecord(key: Key, correction: Correction, reason: string, actor: nat) returns (ok: bool)
      requires key in records && key.0 in sessions
      modifies this`records, this`history
      ensures ok <==> Try(old(Stored()), Correct(key, correction, reason, actor)).Some?
      ensures Stored() == Step(old(Stored()), Correct(key, correction, reason, actor))
    {
      var record := records[key];
      var before := SnapshotOf(record);
      record := record.(status := Or(correction.status, record.status));
      record := record.(arrival := Or(correction.arrival, record.arrival));
      record := record.(departure := Or(correction.departure, record.departure));
      record := record.(late := Or(correction.late, record.late));
      record := record.(early := Or(correction.early, record.early));
      record := record.(note := Or(correction.note, record.note));
      record := WithoutExcuse(Timed(sessions[key.0], record));
      record := record.(recordedBy := actor, revision := record.revision + 1);
      if !Clean(record) {
        return false;
      }
      records := records[key := record];
      history := history[key := HistoryOf(history, key) + [Revision(before, SnapshotOf(record), reason, actor)]];
      return true;
    }

    method FinalizeSession(session: nat, actor: nat, now: int) returns (ok: bool)
      requires session in sessions
      modifies this`sessions
      ensures ok <==> Try(old(Stored()), Finalize(session, actor, now)).Some?
      ensures Stored() == Step(old(Stored()), Finalize(session, actor, now))
    {
      var s := sessions[session];
      if s.status != Draft {
        return false;
      }
      var expected := ActiveEnrollments(enrollments, s);
      var recorded := RecordedIn(records, session);
      var missing := expected - recorded;
      var extra := recorded - expected;
      if missing != {} || extra != {} {
        assert expected != recorded;
        return false;
      }
      assert expected == recorded by {
        assert forall e :: e in expected <==> e in recorded;
      }
      s := s.(status := Finalized, finalizedBy := Some(actor), finalizedAt := Some(now));
      sessions := sessions[session := s];
      return true;
    }

    method CancelSession(session: nat, reason: string) returns (ok: bool)
      requires session in sessions
      modifies this`sessions
      ensures ok <==> Try(old(Stored()), Cancel(session, reason)).Some?
      ensures Stored() == Step(old(Stored()), Cancel(session, reason))
    {
      var s := sessions[session];
      if s.status != Draft {
        return false;
      }
      sessions := sessions[session := s.(status := Cancelled, notes := CancelNotes(s.notes, reason))];
      return true;
    }

    method SubmitExcuse(key: Key, reason: string, files: nat, actor: nat, now: int) returns (ok: bool)
      requires key in records
      modifies this`records, this`history, this`evidence
      ensures ok <==> Try(old(Stored()), Submit(key, reason, files, actor, now)).Some?
      ensures Stored() == Step(old(Stored()), Submit(key, reason, files, actor, now))
    {
      var record := records[key];
      if record.status == Present {
        return false;
      }
      var before := SnapshotOf(record);
      record := record.(status := AbsentUnexcused, absenceReason := reason, excuse := Pending);
      record := record.(excuseBy := Some(actor), excuseAt := Some(now));
      record := record.(reviewedBy := None, reviewedAt := None, reviewNote := "");
      record := record.(revision := record.revision + 1);
      if !Clean(record) {
        return false;
      }
      records := records[key := record];
      evidence := evidence[key := EvidenceOf(evidence, key) + files];
      history := history[key := HistoryOf(history, key) + [Revision(before, SnapshotOf(record), SUBMIT_REASON, actor)]];
      return true;
    }

    method ReviewExcuse(key: Key, approved: bool, evidenceRequired: bool, note: string, actor: nat, now: int)
      returns (ok: bool)
      requires key in records
      modifies this`records, this`history
      ensures ok <==> Try(old(Stored()), Review(key, approved, evidenceRequired, note, actor, now)).Some?
      ensures Stored() == Step(old(Stored()), Review(key, approved, evidenceRequired, note, actor, now))
    {
      var record := records[key];
      if record.excuse != Pending {
        return false;
      }
      if approved && evidenceRequired && EvidenceOf(evidence, key) == 0 {
        return false;
      }
      var before := SnapshotOf(record);
      record := record.(reviewedBy := Some(actor), reviewedAt := Some(now), reviewNote := note);
      if approved {
        record := record.(status := AbsentExcused, excuse := Approved);
      } else {
        record := record.(status := AbsentUnexcused, excuse := Rejected);
      }
      record := record.(revision := record.revision + 1);
      if !Clean(record) {
        return false;
      }
      records := records[key := record];
      var why := if approved then APPROVE_REASON else REJECT_REASON;
      history := history[key := HistoryOf(history, key) + [Revision(before, SnapshotOf(record), why, actor)]];
      return true;
    }
  }

  // ---------------------------------------------------------------- invariants over every run

  /** History entries chain: each starts where the previous one ended. */
  predicate Chained(history: seq<Revision>) {
    forall i :: 0 <= i < |history| - 1 ==> history[i].after == history[i + 1].before
  }

  /** A record agrees with its own history and with the excuse rules. */
  predicate Audited(r: Record, history: seq<Revision>) {
    && r.revision == 1 + |history|
    && Chained(history)
    && (history != [] ==> history[|history| - 1].after == SnapshotOf(r))
    && (forall i :: 0 <= i < |history| ==> history[i].before.revision == i + 1 && history[i].after.revision == i + 2)
    && (r.status == AbsentExcused <==> r.excuse == Approved)
    && (r.excuse == Approved ==> r.reviewedBy.Some? && r.reviewedAt.Some?)
  }

  predicate Consistent(store: Store) {
    && (forall k :: k in store.records ==>
          && k.0 in store.sessions
          && Clean(store.records[k])
          && Audited(store.records[k], HistoryOf(store.history, k)))
    && (forall k :: k in store.history ==> k in store.records)
  }

  /** A revision from the stored record to its replacement extends the audit. */
  lemma AuditExtends(was: Record, history: seq<Revision>, r: Record, reason: string, actor: nat)
    requires Audited(was, history) && Clean(r) && r.revision == was.revision + 1
    ensures Audited(r, history + [Revision(SnapshotOf(was), SnapshotOf(r), reason, actor)])
  {
  }

  lemma SaveKeepsConsistent(store: Store, key: Key, r: Record, reason: string, actor: nat)
    requires Consistent(store) && key.0 in store.sessions && Clean(r)
    requires r.revision == (if key in store.records then store.records[key].revision + 1 else 1)
    ensures Consistent(Save(store, key, r, reason, actor))
  {
    var t := Save(store, key, r, reason, actor);
    forall k | k in t.records
      ensures k.0 in t.sessions && Clean(t.records[k]) && Audited(t.records[k], HistoryOf(t.history, k))
    {
      if k != key {
        assert t.records[k] == store.records[k] && HistoryOf(t.history, k) == HistoryOf(store.history, k);
      } else if key in store.records {
        AuditExtends(store.records[key], HistoryOf(store.history, key), r, reason, actor);
      } else {
        assert HistoryOf(t.history, key) == [];
      }
    }
  }

  lemma {:induction false} SaveItemsKeepsConsistent(store: Store, session: nat, items: seq<Item>, actor: nat)
    requires Consistent(store) && session in store.sessions
    ensures var r := SaveItems(store, session, items, actor); r.Some? ==> Consistent(r.value)
  {
    if items != [] {
      var n := |items| - 1;
      SaveItemsKeepsConsistent(store, session, items[..n], actor);
      var front := SaveItems(store, session, items[..n], actor);
      if front.Some? && ItemAccepted(front.value, session, items[n], actor) {
        var key := (session, items[n].enrollment);
        SaveKeepsConsistent(front.value, key,
                            Recorded(front.value.sessions[session], Find(front.value.records, key), items[n], actor),
                            BULK_REASON, actor);
      }
    }
  }

  lemma StepKeepsConsistent(store: Store, op: Operation)
    requires Consistent(store)
    ensures Consistent(Step(store, op))
  {
    if Try(store, op).Some? {
      match op {
        case Bulk(x, items, actor) =>
          SaveItemsKeepsConsistent(store, x, items, actor);
        case Correct(key, correction, reason, actor) =>
          SaveKeepsConsistent(store, key, Corrected(store.sessions[key.0], store.records[key], correction, actor), reason, actor);
        case Submit(key, reason, files, actor, now) =>
          SaveKeepsConsistent(store, key, ExcuseSubmitted(store.records[key], reason, actor, now), SUBMIT_REASON, actor);
        case Review(key, approved, evidenceRequired, note, actor, now) =>
          SaveKeepsConsistent(store, key, ExcuseReviewed(store.records[key], approved, note, actor, now),
                              if approved then APPROVE_REASON else REJECT_REASON, actor);
        case _ =>
      }
    }
  }

  const EMPTY := Store(map[], map[], map[], map[], map[])

  lemma {:induction false} RunKeepsConsistent(store: Store, ops: seq<Operation>)
    requires Consistent(store)
    ensures Consistent(Run(store, ops))
    decreases |ops|
  {
    if ops != [] {
      StepKeepsConsistent(store, ops[0]);
      RunKeepsConsistent(Step(store, ops[0]), ops[1..]);
    }
  }

  /** In every reachable state a record's revision is one more than its number of history
      entries, the entries chain up to the record as it is now, and it is excused exactly
      when its excuse was approved by a recorded reviewer. */
  lemma EveryRecordIsAudited(ops: seq<Operation>, key: Key)
    ensures var t := Run(EMPTY, ops);
            key in t.records ==> Audited(t.records[key], HistoryOf(t.history, key))
  {
    RunKeepsConsistent(EMPTY, ops);
  }

  // ---------------------------------------------------------------- sessions

  lemma {:induction false} SaveItemsOnlyWritesSession(store: Store, session: nat, items: seq<Item>, actor: nat, other: nat)
    requires session in store.sessions && other != session
    ensures var r := SaveItems(store, session, items, actor);
            r.Some? ==> RecordedIn(r.value.records, other) == RecordedIn(store.records, other)
  {
    if items != [] {
      var n := |items| - 1;
      SaveItemsOnlyWritesSession(store, session, items[..n], actor, other);
      var front := SaveItems(store, session, items[..n], actor);
      if front.Some? && ItemAccepted(front.value, session, items[n], actor) {
        var t := SaveItem(front.value, session, items[n], actor);
        assert forall k: Key :: k.0 == other ==> (k in t.records <==> k in front.value.records);
        assert RecordedIn(t.records, other) == RecordedIn(front.value.records, other);
      }
    }
  }

  /** A closed session keeps its status and its set of records through any step. */
  lemma ClosedSessionStep(store: Store, op: Operation, x: nat)
    requires x in store.sessions && store.sessions[x].status != Draft
    ensures var t := Step(store, op);
            && x in t.sessions && t.sessions[x] == store.sessions[x]
            && RecordedIn(t.records, x) == RecordedIn(store.records, x)
  {
    var t := Step(store, op);
    if Try(store, op).Some? {
      if op.Bulk? {
        SaveItemsOnlyWritesSession(store, op.session, op.items, op.actor, x);
      } else {
        assert t.records.Keys == store.records.Keys;
        assert RecordedIn(t.records, x) == RecordedIn(store.records, x);
      }
    }
  }

  /** FINALIZED and CANCELLED are terminal, and no later operation adds or removes records. */
  lemma {:induction false} ClosedSessionsStayClosed(store: Store, ops: seq<Operation>, x: nat)
    requires x in store.sessions && store.sessions[x].status != Draft
    ensures var t := Run(store, ops);
            && x in t.sessions && t.sessions[x] == store.sessions[x]
            && RecordedIn(t.records, x) == RecordedIn(store.records, x)
    decreases |ops|
  {
    if ops != [] {
      ClosedSessionStep(store, ops[0], x);
      ClosedSessionsStayClosed(Step(store, ops[0]), ops[1..], x);
    }
  }

  /** A finalised session holds, for ever, exactly the enrollments that were active on its
      date when it was finalised, whatever happens to enrollments afterwards. */
  lemma FinalizedRosterIsFixed(before: seq<Operation>, x: nat, actor: nat, now: int, after: seq<Operation>)
    requires Try(Run(EMPTY, before), Finalize(x, actor, now)).Some?
    ensures var s := Run(EMPTY, before);
            var t := Run(Step(s, Finalize(x, actor, now)), after);
            && x in t.sessions && t.sessions[x].status == Finalized
            && RecordedIn(t.records, x) == ActiveEnrollments(s.enrollments, s.sessions[x])
  {
    ClosedSessionsStayClosed(Step(Run(EMPTY, before), Finalize(x, actor, now)), after, x);
  }
}
