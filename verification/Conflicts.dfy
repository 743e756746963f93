/** Overlaps between the workbooks of one school's data directory.  After every scan the
    open conflicts that the scanner manages are recalculated, and valid workbooks that
    describe a disputed class are marked. */
module Conflicts {
  import opened Counting

  datatype Status = Valid | Incomplete | Invalid | Conflicting

  /** One workbook; `detectedClasses` are the class codes found in its rows. */
  datatype Manifest = Manifest(checksum: string, status: Status, detectedClasses: seq<string>)

  datatype Row = Row(manifest: nat, classCode: string, nationalId: string)

  /** What the members of a conflict have in common. */
  datatype Group =
    | SameFile(checksum: string)
    | SameClass(classCode: string)
    | SameStudent(classCode: string, nationalId: string)

  datatype Kind = DuplicateFile | ClassOverlap | StudentOverlap

  function KindOf(g: Group): Kind {
    match g
    case SameFile(_) => DuplicateFile
    case SameClass(_) => ClassOverlap
    case SameStudent(_, _) => StudentOverlap
  }

  datatype Conflict = Conflict(group: Group, open: bool, scannerManaged: bool, manifests: set<nat>)

  datatype Store = Store(manifests: map<nat, Manifest>, rows: seq<Row>, conflicts: map<nat, Conflict>)

  type Candidates = map<Group, set<nat>>

  // ---------------------------------------------------------------- reference definitions

  function Live(manifests: map<nat, Manifest>): set<nat> {
    set m | m in manifests && manifests[m].status != Invalid
  }

  predicate Belongs(m: nat, g: Group, manifests: map<nat, Manifest>, rows: seq<Row>)
    requires m in manifests
  {
    match g
    case SameFile(checksum) => manifests[m].checksum == checksum
    case SameClass(code) => code in manifests[m].detectedClasses
    case SameStudent(code, id) => id != "" && Row(m, code, id) in rows
  }

  /** The usable workbooks in a group. */
  function Members(g: Group, manifests: map<nat, Manifest>, rows: seq<Row>): set<nat> {
    set m | m in Live(manifests) && Belongs(m, g, manifests, rows)
  }

  /** An open conflict of the scanner for a group. */
  predicate Managed(conflicts: map<nat, Conflict>, id: nat, g: Group) {
    id in conflicts && conflicts[id].open && conflicts[id].scannerManaged && conflicts[id].group == g
  }

  ghost predicate Reported(conflicts: map<nat, Conflict>, g: Group) {
    exists id :: Managed(conflicts, id, g)
  }

  predicate Temporary(c: Conflict) {
    c.open && c.scannerManaged
  }

  /** The open conflicts of the scanner of one kind. */
  function TemporaryIds(conflicts: map<nat, Conflict>, kind: Kind): set<nat> {
    set id | id in conflicts && Temporary(conflicts[id]) && KindOf(conflicts[id].group) == kind
  }

  /** Conflicts that people wrote or resolved. */
  function Permanent(conflicts: map<nat, Conflict>): map<nat, Conflict> {
    map id | id in conflicts && !Temporary(conflicts[id]) :: conflicts[id]
  }

  /** A class code for which an overlap of classes or students is open. */
  predicate Disputed(conflicts: map<nat, Conflict>, code: string) {
    && code != ""
    && exists id :: id in conflicts && DisputesClass(conflicts[id], code)
  }

  predicate DisputesClass(c: Conflict, code: string) {
    c.open && !c.group.SameFile? && c.group.classCode == code
  }

  predicate AnyDisputed(conflicts: map<nat, Conflict>, codes: seq<string>) {
    exists code :: code in codes && Disputed(conflicts, code)
  }

  /** A group with two or more members has one open conflict of the scanner, which lists
      exactly these members; a smaller group has none. */
  ghost predicate Covered(conflicts: map<nat, Conflict>, manifests: map<nat, Manifest>, rows: seq<Row>, g: Group) {
    var members := Members(g, manifests, rows);
    && (|members| >= 2 <==> Reported(conflicts, g))
    && (forall id | Managed(conflicts, id, g) :: conflicts[id].manifests == members)
    && (forall id, jd | Managed(conflicts, id, g) && Managed(conflicts, jd, g) :: id == jd)
  }

  ghost predicate OnePerSharedGroup(conflicts: map<nat, Conflict>, manifests: map<nat, Manifest>, rows: seq<Row>) {
    forall g :: Covered(conflicts, manifests, rows, g)
  }

  function Marked(conflicts: map<nat, Conflict>, m: Manifest): Manifest {
    if m.status == Valid && AnyDisputed(conflicts, m.detectedClasses) then m.(status := Conflicting) else m
  }

  predicate StatusesFollow(before: map<nat, Manifest>, after: map<nat, Manifest>, conflicts: map<nat, Conflict>) {
    && after.Keys == before.Keys
    && forall m | m in before :: after[m] == Marked(conflicts, before[m])
  }

  /** What a refresh does to the tables. */
  ghost predicate Refreshed(s: Store, t: Store) {
    && t.rows == s.rows
    && Permanent(t.conflicts) == Permanent(s.conflicts)
    && OnePerSharedGroup(t.conflicts, s.manifests, s.rows)
    && StatusesFollow(s.manifests, t.manifests, t.conflicts)
  }

  predicate ClassCodesAreNamed(manifests: map<nat, Manifest>) {
    forall m, code | m in manifests && code in manifests[m].detectedClasses :: code != ""
  }

  // ---------------------------------------------------------------- collecting candidates

  function CandidatesFor(candidates: Candidates, g: Group): set<nat> {
    if g in candidates then candidates[g] else {}
  }

  function Add(candidates: Candidates, g: Group, m: nat): Candidates {
    candidates[g := CandidatesFor(candidates, g) + {m}]
  }

  method HasDisputedClass(conflicts: map<nat, Conflict>, codes: seq<string>) returns (yes: bool)
    ensures yes <==> AnyDisputed(conflicts, codes)
  {
    yes := exists code :: code in codes && Disputed(conflicts, code);
  }

  ghost predicate FilesCollected(byChecksum: Candidates, manifests: map<nat, Manifest>, rows: seq<Row>, todo: set<nat>) {
    && (forall g :: g in byChecksum ==> g.SameFile?)
    && forall g: Group | g.SameFile? :: CandidatesFor(byChecksum, g) == Members(g, manifests, rows) - todo
  }

  ghost predicate ClassesCollected(byClass: Candidates, manifests: map<nat, Manifest>, rows: seq<Row>, todo: set<nat>) {
    && (forall g :: g in byClass ==> g.SameClass?)
    && forall g: Group | g.SameClass? :: CandidatesFor(byClass, g) == Members(g, manifests, rows) - todo
  }

  ghost predicate StudentsCollected(byStudent: Candidates, manifests: map<nat, Manifest>, rows: seq<Row>) {
    && (forall g :: g in byStudent ==> g.SameStudent?)
    && forall g: Group | g.SameStudent? :: CandidatesFor(byStudent, g) == Members(g, manifests, rows)
  }

  lemma FileAdded(byChecksum: Candidates, manifests: map<nat, Manifest>, rows: seq<Row>, todo: set<nat>, m: nat)
    requires FilesCollected(byChecksum, manifests, rows, todo) && m in todo && todo <= Live(manifests)
    ensures FilesCollected(Add(byChecksum, SameFile(manifests[m].checksum), m), manifests, rows, todo - {m})
  {
    var added := Add(byChecksum, SameFile(manifests[m].checksum), m);
    forall g: Group | g.SameFile? ensures CandidatesFor(added, g) == Members(g, manifests, rows) - (todo - {m}) {
      assert CandidatesFor(byChecksum, g) == Members(g, manifests, rows) - todo;
      assert m in Members(g, manifests, rows) <==> g.checksum == manifests[m].checksum;
    }
  }

  lemma ClassesAdded(before: Candidates, after: Candidates, manifests: map<nat, Manifest>, rows: seq<Row>, todo: set<nat>, m: nat)
    requires ClassesCollected(before, manifests, rows, todo) && m in todo && todo <= Live(manifests)
    requires forall g :: g in after ==> g.SameClass?
    requires forall g: Group :: CandidatesFor(after, g) == CandidatesFor(before, g)
               + if g.SameClass? && g.classCode in manifests[m].detectedClasses then {m} else {}
    ensures ClassesCollected(after, manifests, rows, todo - {m})
  {
    forall g: Group | g.SameClass? ensures CandidatesFor(after, g) == Members(g, manifests, rows) - (todo - {m}) {
      assert CandidatesFor(before, g) == Members(g, manifests, rows) - todo;
      assert m in Members(g, manifests, rows) <==> g.classCode in manifests[m].detectedClasses;
    }
  }

  /** Conflicts of the scanner among some keys of one dictionary. */
  ghost predicate OnePerCandidate(conflicts: map<nat, Conflict>, candidates: Candidates, keys: set<Group>) {
    && (forall g :: g in keys && |CandidatesFor(candidates, g)| >= 2 ==> Reported(conflicts, g))
    && (forall id, g | g in keys && Managed(conflicts, id, g) ::
          conflicts[id].manifests == CandidatesFor(candidates, g) && |CandidatesFor(candidates, g)| >= 2)
    && (forall id, jd, g | g in keys && Managed(conflicts, id, g) && Managed(conflicts, jd, g) :: id == jd)
  }

  /** The conflicts of one kind have become more by `count`, the others have not. */
  ghost predicate CountedAs(start: map<nat, Conflict>, now: map<nat, Conflict>, kind: Kind, count: nat) {
    forall k :: |TemporaryIds(now, k)| == |TemporaryIds(start, k)| + if k == kind then count else 0
  }

  /** The conflicts of the keys handled so far have been added to those at the start. */
  ghost predicate Created(start: map<nat, Conflict>, now: map<nat, Conflict>, candidates: Candidates, done: set<Group>) {
    && Permanent(now) == Permanent(start)
    && OnePerCandidate(now, candidates, done)
    && (forall id | id in start :: id in now && now[id] == start[id])
    && (forall id, g | Managed(now, id, g) :: g in done || Managed(start, id, g))
  }

  function WithConflict(conflicts: map<nat, Conflict>, id: nat, g: Group, members: set<nat>): map<nat, Conflict> {
    if |members| < 2 then conflicts else conflicts[id := Conflict(g, true, true, members)]
  }

  lemma CountedOneMore(start: map<nat, Conflict>, now: map<nat, Conflict>, kind: Kind, count: nat,
                       g: Group, members: set<nat>, id: nat)
    requires id !in now && KindOf(g) == kind && CountedAs(start, now, kind, count)
    ensures CountedAs(start, WithConflict(now, id, g, members), kind, if |members| >= 2 then count + 1 else count)
  {
    forall k: Kind
      ensures |TemporaryIds(WithConflict(now, id, g, members), k)|
           == |TemporaryIds(now, k)| + if |members| >= 2 && k == kind then 1 else 0
    {
      if |members| >= 2 {
        AddedTemporary(now, id, Conflict(g, true, true, members), k);
      }
    }
  }

  lemma AddedTemporary(now: map<nat, Conflict>, id: nat, c: Conflict, k: Kind)
    requires id !in now && Temporary(c)
    ensures |TemporaryIds(now[id := c], k)| == |TemporaryIds(now, k)| + if KindOf(c.group) == k then 1 else 0
  {
    if KindOf(c.group) == k {
      assert TemporaryIds(now[id := c], k) == TemporaryIds(now, k) + {id};
    } else {
      assert TemporaryIds(now[id := c], k) == TemporaryIds(now, k);
    }
  }

  lemma HandledOneMore(start: map<nat, Conflict>, now: map<nat, Conflict>, candidates: Candidates, done: set<Group>, g: Group, id: nat)
    requires g in candidates && g !in done && id !in now
    requires Created(start, now, candidates, done)
    requires forall jd :: !Managed(start, jd, g)
    ensures Created(start, WithConflict(now, id, g, candidates[g]), candidates, done + {g})
  {
    var after := WithConflict(now, id, g, candidates[g]);
    if |candidates[g]| >= 2 {
      assert Permanent(after) == Permanent(now);
      assert Managed(after, id, g);
      forall jd, h | Managed(after, jd, h) ensures if h == g then jd == id else Managed(now, jd, h) {
        assert jd != id ==> Managed(now, jd, h);
      }
      forall h | h in done && |CandidatesFor(candidates, h)| >= 2 ensures Reported(after, h) {
        var jd :| Managed(now, jd, h);
        assert Managed(after, jd, h);
      }
    } else {
      assert forall jd :: !Managed(now, jd, g);
    }
  }

  /** What was created for one dictionary survives the creation for another one. */
  lemma CreatedStays(a: map<nat, Conflict>, b: map<nat, Conflict>, mine: Candidates, other: Candidates)
    requires OnePerCandidate(a, mine, mine.Keys) && Created(a, b, other, other.Keys)
    requires mine.Keys !! other.Keys
    ensures OnePerCandidate(b, mine, mine.Keys)
  {
    forall g | g in mine && |mine[g]| >= 2 ensures Reported(b, g) {
      var id :| Managed(a, id, g);
      assert Managed(b, id, g);
    }
  }

  /** A conflict for a group of one dictionary comes from that dictionary. */
  lemma WhoseConflict(c0: map<nat, Conflict>, c1: map<nat, Conflict>, c2: map<nat, Conflict>, c3: map<nat, Conflict>,
                      first: Candidates, second: Candidates, third: Candidates, id: nat, g: Group)
    requires Created(c0, c1, first, first.Keys) && Created(c1, c2, second, second.Keys) && Created(c2, c3, third, third.Keys)
    requires Managed(c3, id, g) && !Managed(c0, id, g)
    ensures g in first || g in second || g in third
  {
    if g !in third && g !in second {
      assert Managed(c2, id, g) && Managed(c1, id, g);
    }
  }

  lemma KindIsCovered(conflicts: map<nat, Conflict>, candidates: Candidates, manifests: map<nat, Manifest>, rows: seq<Row>, g: Group)
    requires OnePerCandidate(conflicts, candidates, candidates.Keys)
    requires CandidatesFor(candidates, g) == Members(g, manifests, rows)
    requires forall id | Managed(conflicts, id, g) :: g in candidates
    ensures Covered(conflicts, manifests, rows, g)
  {
    if |Members(g, manifests, rows)| >= 2 {
      assert Reported(conflicts, g);
    }
  }

  lemma AllCreated(c0: map<nat, Conflict>, c1: map<nat, Conflict>, c2: map<nat, Conflict>, c3: map<nat, Conflict>,
                   byChecksum: Candidates, byClass: Candidates, byStudent: Candidates,
                   manifests: map<nat, Manifest>, rows: seq<Row>)
    requires FilesCollected(byChecksum, manifests, rows, {}) && ClassesCollected(byClass, manifests, rows, {})
    requires StudentsCollected(byStudent, manifests, rows)
    requires Created(c0, c1, byChecksum, byChecksum.Keys) && Created(c1, c2, byClass, byClass.Keys)
    requires Created(c2, c3, byStudent, byStudent.Keys)
    requires forall id, g :: !Managed(c0, id, g)
    ensures OnePerSharedGroup(c3, manifests, rows) && Permanent(c3) == Permanent(c0)
  {
    CreatedStays(c1, c2, byChecksum, byClass);
    CreatedStays(c2, c3, byChecksum, byStudent);
    CreatedStays(c2, c3, byClass, byStudent);
    forall g: Group ensures Covered(c3, manifests, rows, g) {
      var mine := match g case SameFile(_) => byChecksum case SameClass(_) => byClass case SameStudent(_, _) => byStudent;
      assert CandidatesFor(mine, g) == Members(g, manifests, rows);
      forall id | Managed(c3, id, g) ensures g in mine {
        WhoseConflict(c0, c1, c2, c3, byChecksum, byClass, byStudent, id, g);
      }
      KindIsCovered(c3, mine, manifests, rows, g);
    }
  }

  lemma NamesAreKept(before: map<nat, Manifest>, after: map<nat, Manifest>, conflicts: map<nat, Conflict>)
    requires ClassCodesAreNamed(before) && StatusesFollow(before, after, conflicts)
    ensures ClassCodesAreNamed(after)
  {
    forall m, code | m in after && code in after[m].detectedClasses ensures code != "" {
      assert code in before[m].detectedClasses;
    }
  }

  class DataDirectoryScanner {
    var manifests: map<nat, Manifest>
    var rows: seq<Row>
    var conflicts: map<nat, Conflict>
    var nextId: nat

    ghost predicate Valid()
      reads this
    {
      ClassCodesAreNamed(manifests) && forall id :: id in conflicts ==> id < nextId
    }

    function Stored(): Store
      reads this
    {
      Store(manifests, rows, conflicts)
    }

    method ClassesOf(m: nat, byClass: Candidates) returns (result: Candidates)
      requires m in manifests && forall g :: g in byClass ==> g.SameClass?
      ensures forall g :: g in result ==> g.SameClass?
      ensures forall g: Group :: CandidatesFor(result, g) == CandidatesFor(byClass, g)
                                   + if g.SameClass? && g.classCode in manifests[m].detectedClasses then {m} else {}
    {
      result := byClass;
      var codes := manifests[m].detectedClasses;
      for i := 0 to |codes|
        invariant forall g :: g in result ==> g.SameClass?
        invariant forall g: Group :: CandidatesFor(result, g) == CandidatesFor(byClass, g)
                                       + if g.SameClass? && g.classCode in codes[..i] then {m} else {}
      {
        assert codes[..i + 1] == codes[..i] + [codes[i]];
        result := Add(result, SameClass(codes[i]), m);
      }
      assert codes[..|codes|] == codes;
    }

    method GroupManifests() returns (byChecksum: Candidates, byClass: Candidates)
      ensures FilesCollected(byChecksum, manifests, rows, {})
      ensures ClassesCollected(byClass, manifests, rows, {})
    {
      byChecksum, byClass := map[], map[];
      var todo := Live(manifests);
      while todo != {}
        invariant todo <= Live(manifests)
        invariant FilesCollected(byChecksum, manifests, rows, todo)
        invariant ClassesCollected(byClass, manifests, rows, todo)
        decreases |todo|
      {
        var m :| m in todo;
        FileAdded(byChecksum, manifests, rows, todo, m);
        byChecksum := Add(byChecksum, SameFile(manifests[m].checksum), m);
        ghost var before := byClass;
        byClass := ClassesOf(m, byClass);
        ClassesAdded(before, byClass, manifests, rows, todo, m);
        todo := todo - {m};
      }
    }

    method GroupStudents() returns (byStudent: Candidates)
      ensures StudentsCollected(byStudent, manifests, rows)
    {
      byStudent := map[];
      for i := 0 to |rows|
        invariant StudentsCollected(byStudent, manifests, rows[..i])
      {
        var row := rows[i];
        assert rows[..i + 1] == rows[..i] + [row];
        if row.manifest in Live(manifests) && row.nationalId != "" {
          byStudent := Add(byStudent, SameStudent(row.classCode, row.nationalId), row.manifest);
        }
      }
      assert rows[..|rows|] == rows;
    }

    /** Records one group, unless it has a single member. */
    method Create(g: Group, members: set<nat>) returns (created: bool)
      requires Valid()
      modifies this`conflicts, this`nextId
      ensures Valid()
      ensures old(nextId) !in old(conflicts)
      ensures created <==> |members| >= 2
      ensures conflicts == WithConflict(old(conflicts), old(nextId), g, members)
    {
      if |members| < 2 {
        return false;
      }
      conflicts := conflicts[nextId := Conflict(g, true, true, members)];
      nextId := nextId + 1;
      return true;
    }

    /** Creates the conflicts of one dictionary and counts them. */
    method CreateConflicts(kind: Kind, candidates: Candidates) returns (count: nat)
      requires Valid()
      requires forall g :: g in candidates ==> KindOf(g) == kind
      requires forall id, g | Managed(conflicts, id, g) :: g !in candidates
      modifies this`conflicts, this`nextId
      ensures Valid()
      ensures Created(old(conflicts), conflicts, candidates, candidates.Keys)
      ensures CountedAs(old(conflicts), conflicts, kind, count)
    {
      var todo := candidates.Keys;
      ghost var done: set<Group> := {};
      count := 0;
      while todo != {}
        invariant done + todo == candidates.Keys && done !! todo
        invariant Valid()
        invariant Created(old(conflicts), conflicts, candidates, done)
        invariant CountedAs(old(conflicts), conflicts, kind, count)
        decreases |todo|
      {
        var g :| g in todo;
        todo := todo - {g};
        ghost var now, id := conflicts, nextId;
        var created := Create(g, candidates[g]);
        HandledOneMore(old(conflicts), now, candidates, done, g, id);
        CountedOneMore(old(conflicts), now, kind, count, g, candidates[g], id);
        done := done + {g};
        if created {
          count := count + 1;
        }
      }
    }

    /** Marks the valid workbooks that describe a disputed class. */
    method MarkManifests()
      modifies this`manifests
      ensures StatusesFollow(old(manifests), manifests, conflicts)
    {
      var todo := Live(manifests);
      while todo != {}
        invariant todo <= Live(old(manifests))
        invariant manifests.Keys == old(manifests).Keys
        invariant forall m | m in manifests && m in todo :: manifests[m] == old(manifests)[m]
        invariant forall m | m in manifests && m !in todo :: manifests[m] == Marked(conflicts, old(manifests)[m])
        decreases |todo|
      {
        var m :| m in todo;
        todo := todo - {m};
        var disputed := HasDisputedClass(conflicts, manifests[m].detectedClasses);
        if manifests[m].status == Status.Valid && disputed {
          manifests := manifests[m := manifests[m].(status := Conflicting)];
        }
      }
    }

    method RefreshConflicts() returns (files: nat, classes: nat, students: nat)
      requires Valid()
      modifies this
      ensures Valid()
      ensures Refreshed(old(Stored()), Stored())
      ensures files == |TemporaryIds(conflicts, DuplicateFile)|
      ensures classes == |TemporaryIds(conflicts, ClassOverlap)|
      ensures students == |TemporaryIds(conflicts, StudentOverlap)|
    {
      conflicts := Permanent(conflicts);
      assert forall k :: TemporaryIds(conflicts, k) == {};
      ghost var c0 := conflicts;
      var byChecksum, byClass := GroupManifests();
      var byStudent := GroupStudents();
      files := CreateConflicts(DuplicateFile, byChecksum);
      ghost var c1 := conflicts;
      classes := CreateConflicts(ClassOverlap, byClass);
      ghost var c2 := conflicts;
      students := CreateConflicts(StudentOverlap, byStudent);
      AllCreated(c0, c1, c2, conflicts, byChecksum, byClass, byStudent, manifests, rows);
      ghost var before := manifests;
      MarkManifests();
      NamesAreKept(before, manifests, conflicts);
    }
  }

  // ---------------------------------------------------------------- theorems

  lemma SharedClassIsDisputed(s: Store, t: Store, m: nat, other: nat, code: string)
    requires Refreshed(s, t) && ClassCodesAreNamed(s.manifests) && m != other
    requires m in Members(SameClass(code), s.manifests, s.rows) && other in Members(SameClass(code), s.manifests, s.rows)
    ensures AnyDisputed(t.conflicts, s.manifests[m].detectedClasses)
  {
    var id := OverlapsAreReported(s, t, SameClass(code), m, other);
    assert DisputesClass(t.conflicts[id], code);
    assert Disputed(t.conflicts, code);
  }

  /** No workbook left valid shares a class with another usable workbook. */
  lemma ValidManifestsDoNotOverlap(s: Store, t: Store, m: nat, other: nat, code: string)
    requires Refreshed(s, t) && ClassCodesAreNamed(s.manifests)
    requires m in t.manifests && t.manifests[m].status == Valid && code in t.manifests[m].detectedClasses
    requires other in t.manifests && other != m && t.manifests[other].status != Invalid
    ensures code !in t.manifests[other].detectedClasses
  {
    if code in s.manifests[other].detectedClasses {
      SharedClassIsDisputed(s, t, m, other, code);
    }
  }

  lemma TwoMembers(g: Group, manifests: map<nat, Manifest>, rows: seq<Row>, m: nat, n: nat)
    requires m != n && m in Members(g, manifests, rows) && n in Members(g, manifests, rows)
    ensures |Members(g, manifests, rows)| >= 2
  {
    assert {m, n} <= Members(g, manifests, rows);
    SubsetSize({m, n}, Members(g, manifests, rows));
  }

  /** Two usable workbooks with the same bytes, the same class or the same student of a
      class are reported together, in one open conflict. */
  lemma OverlapsAreReported(s: Store, t: Store, g: Group, m: nat, n: nat) returns (id: nat)
    requires Refreshed(s, t)
    requires m != n && m in Members(g, s.manifests, s.rows) && n in Members(g, s.manifests, s.rows)
    ensures Managed(t.conflicts, id, g) && m in t.conflicts[id].manifests && n in t.conflicts[id].manifests
  {
    TwoMembers(g, s.manifests, s.rows, m, n);
    assert Covered(t.conflicts, s.manifests, s.rows, g);
    id :| Managed(t.conflicts, id, g);
  }

  lemma SameMembersAfterwards(s: Store, t: Store, g: Group)
    requires StatusesFollow(s.manifests, t.manifests, t.conflicts)
    ensures Members(g, t.manifests, s.rows) == Members(g, s.manifests, s.rows)
  {
    assert Live(t.manifests) == Live(s.manifests);
  }

  /** Refreshing again reports the same groups with the same workbooks. */
  lemma SameConflicts(s: Store, t: Store, u: Store, g: Group, id: nat) returns (jd: nat)
    requires Refreshed(s, t) && Refreshed(t, u) && Managed(t.conflicts, id, g)
    ensures Managed(u.conflicts, jd, g) && u.conflicts[jd] == t.conflicts[id]
  {
    SameMembersAfterwards(s, t, g);
    assert Covered(t.conflicts, s.manifests, s.rows, g) && Covered(u.conflicts, t.manifests, t.rows, g);
    jd :| Managed(u.conflicts, jd, g);
  }

  lemma StillDisputed(s: Store, t: Store, u: Store, code: string)
    requires Refreshed(s, t) && Refreshed(t, u) && Disputed(u.conflicts, code)
    ensures Disputed(t.conflicts, code)
  {
    var id :| id in u.conflicts && DisputesClass(u.conflicts[id], code);
    var c := u.conflicts[id];
    if Temporary(c) {
      assert Managed(u.conflicts, id, c.group);
      SameMembersAfterwards(s, t, c.group);
      assert Covered(t.conflicts, s.manifests, s.rows, c.group) && Covered(u.conflicts, t.manifests, t.rows, c.group);
      var jd :| Managed(t.conflicts, jd, c.group);
      assert DisputesClass(t.conflicts[jd], code);
    } else {
      assert id in Permanent(u.conflicts);
      assert id in Permanent(t.conflicts) && Permanent(t.conflicts)[id] == c;
    }
  }

  /** An open scanner conflict of the group with the same contents, under some id. */
  ghost predicate ReportedAs(conflicts: map<nat, Conflict>, g: Group, c: Conflict) {
    exists id :: Managed(conflicts, id, g) && conflicts[id] == c
  }

  /** A second refresh changes nothing: the same conflicts (under new row ids), the same
      records kept by people and the same statuses. */
  lemma RefreshingAgainChangesNothing(s: Store, t: Store, u: Store)
    requires Refreshed(s, t) && Refreshed(t, u)
    ensures u.manifests == t.manifests && u.rows == t.rows
    ensures Permanent(u.conflicts) == Permanent(t.conflicts)
    ensures forall g :: Reported(u.conflicts, g) <==> Reported(t.conflicts, g)
    ensures forall id, g | Managed(t.conflicts, id, g) :: ReportedAs(u.conflicts, g, t.conflicts[id])
  {
    forall id, g | Managed(t.conflicts, id, g) ensures ReportedAs(u.conflicts, g, t.conflicts[id]) {
      var jd := SameConflicts(s, t, u, g, id);
    }
    forall m | m in t.manifests ensures u.manifests[m] == t.manifests[m] {
      if t.manifests[m].status == Valid && AnyDisputed(u.conflicts, t.manifests[m].detectedClasses) {
        var code :| code in t.manifests[m].detectedClasses && Disputed(u.conflicts, code);
        StillDisputed(s, t, u, code);
      }
    }
    forall g ensures Reported(u.conflicts, g) <==> Reported(t.conflicts, g) {
      SameMembersAfterwards(s, t, g);
      assert Covered(t.conflicts, s.manifests, s.rows, g) && Covered(u.conflicts, t.manifests, t.rows, g);
    }
  }

  /** A refresh never makes a disputed workbook valid again, even when its rivals are gone:
      only rescanning the file does. */
  lemma MarksAreNotLifted(s: Store, t: Store, m: nat)
    requires Refreshed(s, t) && m in s.manifests
    ensures t.manifests[m].status == Valid <==>
              s.manifests[m].status == Valid && !AnyDisputed(t.conflicts, s.manifests[m].detectedClasses)
    ensures s.manifests[m].status != Valid ==> t.manifests[m] == s.manifests[m]
  {
  }

  // ---------------------------------------------------------------- in terms of the workbooks

  /** The workbook is usable and has what the group is about: these bytes, a class with this
      code, or a row of this student in this class; a student without an id is no one. */
  predicate HasShare(s: Store, m: nat, g: Group) {
    && m in s.manifests && !s.manifests[m].status.Invalid?
    && match g
       case SameFile(checksum) => s.manifests[m].checksum == checksum
       case SameClass(code) => code in s.manifests[m].detectedClasses
       case SameStudent(code, id) => id != "" && exists i :: 0 <= i < |s.rows| && s.rows[i] == Row(m, code, id)
  }

  lemma MembersHaveShares(s: Store, m: nat, g: Group)
    ensures m in Members(g, s.manifests, s.rows) <==> HasShare(s, m, g)
  {
  }

  predicate BothShare(s: Store, a: nat, b: nat, g: Group) {
    a != b && HasShare(s, a, g) && HasShare(s, b, g)
  }

  lemma TwoOfMany(members: set<nat>) returns (a: nat, b: nat)
    requires |members| >= 2
    ensures a != b && a in members && b in members
  {
    a :| a in members;
    assert |members - {a}| >= 1;
    b :| b in members - {a};
  }

  /** After a refresh the scanner has an open conflict for exactly the groups that two usable
      workbooks share, and it names exactly the workbooks that do. */
  lemma ConflictsAreTheSharedGroups(s: Store, t: Store, g: Group)
    requires Refreshed(s, t)
    ensures Reported(t.conflicts, g) <==> exists a, b :: BothShare(s, a, b, g)
    ensures forall id, m: nat | id in t.conflicts && t.conflicts[id].open && t.conflicts[id].scannerManaged && t.conflicts[id].group == g ::
              m in t.conflicts[id].manifests <==> HasShare(s, m, g)
  {
    var members := Members(g, s.manifests, s.rows);
    assert Covered(t.conflicts, s.manifests, s.rows, g);
    forall m: nat ensures m in members <==> HasShare(s, m, g) {
      MembersHaveShares(s, m, g);
    }
    if |members| >= 2 {
      var a, b := TwoOfMany(members);
      assert BothShare(s, a, b, g);
    }
    if a, b :| BothShare(s, a, b, g) {
      TwoMembers(g, s.manifests, s.rows, a, b);
    }
    forall id, m: nat | id in t.conflicts && t.conflicts[id].open && t.conflicts[id].scannerManaged && t.conflicts[id].group == g
      ensures m in t.conflicts[id].manifests <==> HasShare(s, m, g)
    {
      assert Managed(t.conflicts, id, g);
    }
  }

  /** An open conflict about a class or a student of one of the classes. */
  predicate Blocks(c: Conflict, codes: seq<string>) {
    && c.open
    && match c.group
       case SameFile(_) => false
       case SameClass(code) => code != "" && code in codes
       case SameStudent(code, _) => code != "" && code in codes
  }

  /** Marked are exactly the valid workbooks of which an open conflict disputes a class,
      whoever wrote the conflict; nothing else about any workbook changes. */
  lemma MarkedExactly(s: Store, t: Store, m: nat)
    requires Refreshed(s, t) && m in s.manifests
    ensures t.manifests[m]
         == if s.manifests[m].status.Valid? && exists id :: id in t.conflicts && Blocks(t.conflicts[id], s.manifests[m].detectedClasses)
            then s.manifests[m].(status := Conflicting) else s.manifests[m]
  {
    var codes := s.manifests[m].detectedClasses;
    if AnyDisputed(t.conflicts, codes) {
      var code :| code in codes && Disputed(t.conflicts, code);
      var id :| id in t.conflicts && DisputesClass(t.conflicts[id], code);
      assert Blocks(t.conflicts[id], codes);
    }
    if id :| id in t.conflicts && Blocks(t.conflicts[id], codes) {
      var code := t.conflicts[id].group.classCode;
      assert DisputesClass(t.conflicts[id], code);
      assert Disputed(t.conflicts, code);
    }
  }
}
