/** Keeping the exam registry in step with the timed sequences of a published course. */
module ProctoredExams {
  import opened Common

  /** `ancestors` lists the categories of the parents, nearest first. */
  datatype Sequence = Sequence(location: string, name: string, minutes: int, proctored: bool, ancestors: seq<string>)

  datatype Exam = Exam(
    id: nat, courseId: string, contentId: string, name: string, minutes: int, proctored: bool, active: bool)

  type Rows = map<nat, Exam>

  predicate InCourseTree(s: Sequence) { "course" in s.ancestors }

  method IsItemInCourseTree(s: Sequence) returns (r: bool)
    ensures r == InCourseTree(s)
    ensures r <==> "course" in s.ancestors
  {
    var i := 0;
    while i < |s.ancestors| && s.ancestors[i] != "course"
      invariant 0 <= i <= |s.ancestors| && "course" !in s.ancestors[..i]
    {
      i := i + 1;
    }
    r := i < |s.ancestors|;
  }

  // ------------------------------------------------------------------- registry

  /** Rows are filed under their id, and no two are for the same content of a course. */
  ghost predicate Valid(rows: Rows) {
    && (forall id <- rows :: rows[id].id == id)
    && forall a, b | a in rows && b in rows && Same(rows[a], rows[b].courseId, rows[b].contentId) :: a == b
  }

  predicate Same(e: Exam, courseId: string, contentId: string) {
    e.courseId == courseId && e.contentId == contentId
  }

  /** The contract of the external exam registry. */
  class Registry {
    var rows: Rows
    var nextId: nat

    ghost predicate Ready()
      reads this
    {
      Valid(rows) && forall id <- rows :: id < nextId
    }

    constructor ()
      ensures Ready() && rows == map[]
    {
      rows, nextId := map[], 1;
    }

    method GetExamByContentId(courseId: string, contentId: string) returns (r: Option<Exam>)
      requires Ready()
      ensures r.Some? ==> r.value.id in rows && rows[r.value.id] == r.value && Same(r.value, courseId, contentId)
      ensures r.None? ==> forall id <- rows :: !Same(rows[id], courseId, contentId)
    {
      var rest := rows.Keys;
      while rest != {}
        invariant forall id <- rows | id !in rest :: !Same(rows[id], courseId, contentId)
        invariant rest <= rows.Keys
      {
        var id :| id in rest;
        if Same(rows[id], courseId, contentId) { return Some(rows[id]); }
        rest := rest - {id};
      }
      return None;
    }

    /** Every row of a course, in any order. */
    method GetAllExamsForCourse(courseId: string) returns (exams: seq<Exam>)
      requires Ready()
      ensures forall e :: e in exams <==> e.id in rows && rows[e.id] == e && e.courseId == courseId
    {
      exams := [];
      var rest := rows.Keys;
      while rest != {}
        invariant rest <= rows.Keys
        invariant forall e :: e in exams <==> e.id in rows && e.id !in rest && rows[e.id] == e && e.courseId == courseId
      {
        var id :| id in rest;
        if rows[id].courseId == courseId { exams := exams + [rows[id]]; }
        rest := rest - {id};
      }
    }

    /** Fields that are not given are left as they are. */
    method UpdateExam(id: nat, name: Option<string>, minutes: Option<int>, proctored: bool, active: bool)
      requires Ready() && id in rows
      modifies this`rows
      ensures Ready() && rows == old(rows)[id := Changed(old(rows)[id], name, minutes, proctored, active)]
    {
      var e := rows[id];
      rows := rows[id := Exam(id, e.courseId, e.contentId, if name.Some? then name.value else e.name,
                              if minutes.Some? then minutes.value else e.minutes, proctored, active)];
    }

    method CreateExam(courseId: string, s: Sequence) returns (id: nat)
      requires Ready() && forall i <- rows :: !Same(rows[i], courseId, s.location)
      modifies this
      ensures Ready() && id !in old(rows) && rows == old(rows)[id := NewExam(id, courseId, s)]
    {
      id := nextId;
      rows := rows[id := Exam(id, courseId, s.location, s.name, s.minutes, s.proctored, true)];
      nextId := nextId + 1;
    }
  }

  function Changed(e: Exam, name: Option<string>, minutes: Option<int>, proctored: bool, active: bool): Exam {
    Exam(e.id, e.courseId, e.contentId, if name.Some? then name.value else e.name,
         if minutes.Some? then minutes.value else e.minutes, proctored, active)
  }

  function NewExam(id: nat, courseId: string, s: Sequence): Exam {
    Exam(id, courseId, s.location, s.name, s.minutes, s.proctored, true)
  }

  // ------------------------------------------------------------- reconciliation

  function Find(timed: seq<Sequence>, location: string): Option<Sequence> {
    if timed == [] then None
    else if timed[0].location == location then Some(timed[0])
    else Find(timed[1..], location)
  }

  ghost predicate DistinctLocations(timed: seq<Sequence>) {
    forall i, j | 0 <= i < j < |timed| :: timed[i].location != timed[j].location
  }

  lemma {:induction false} FindIs(timed: seq<Sequence>, location: string)
    ensures match Find(timed, location)
      case Some(s) => s in timed && s.location == location
      case None => forall s <- timed :: s.location != location
    ensures DistinctLocations(timed) ==>
      forall s <- timed | s.location == location :: Find(timed, location) == Some(s)
  {
    if timed != [] {
      FindIs(timed[1..], location);
      forall s | s in timed[1..] && DistinctLocations(timed) ensures s.location != timed[0].location {
        var i :| 0 <= i < |timed[1..]| && timed[1..][i] == s;
        assert timed[i + 1] == s;
      }
    }
  }

  /**
   * What becomes of an existing row: synced with its sequence if it has one; otherwise,
   * in the end (`settle`), switched off if it was active.
   */
  function Outcome(e: Exam, courseId: string, timed: seq<Sequence>, settle: bool): Exam {
    var s := Find(timed, e.contentId);
    if e.courseId != courseId then e
    else if s.Some? then NewExam(e.id, courseId, s.value)
    else if settle && e.active then e.(proctored := false, active := false)
    else e
  }

  /** Row `id` was created for one of the sequences, which had no row. */
  ghost predicate Created(before: Rows, after: Rows, courseId: string, timed: seq<Sequence>, id: nat)
    requires id in after
  {
    exists s <- timed ::
      after[id] == NewExam(id, courseId, s) && forall i <- before :: !Same(before[i], courseId, s.location)
  }

  ghost predicate Registered(after: Rows, courseId: string, s: Sequence) {
    exists id <- after :: Same(after[id], courseId, s.location)
  }

  ghost predicate Synced(before: Rows, after: Rows, courseId: string, timed: seq<Sequence>, settle: bool) {
    && Valid(after)
    && (forall id <- before :: id in after && after[id] == Outcome(before[id], courseId, timed, settle))
    && (forall id <- after | id !in before :: Created(before, after, courseId, timed, id))
    && (forall s <- timed :: Registered(after, courseId, s))
  }

  ghost predicate Reconciled(before: Rows, after: Rows, courseId: string, timed: seq<Sequence>) {
    Synced(before, after, courseId, timed, true)
  }

  /** The timed sequences that hang in the course tree. */
  function TimedInTree(items: seq<Sequence>): seq<Sequence> {
    if items == [] then []
    else (if InCourseTree(items[0]) then [items[0]] else []) + TimedInTree(items[1..])
  }

  /** Exactly the listed sequences below a course are taken. */
  lemma {:induction false} TimedAreInTree(items: seq<Sequence>, s: Sequence)
    ensures s in TimedInTree(items) <==> s in items && "course" in s.ancestors
  {
    if items != [] {
      TimedAreInTree(items[1..], s);
      assert items == [items[0]] + items[1..];
    }
  }

  method RegisterProctoredExams(
      registry: Registry, courseId: string, featureOn: bool, courseEnabled: bool, items: seq<Sequence>)
    requires registry.Ready() && DistinctLocations(TimedInTree(items))
    modifies registry
    ensures registry.Ready()
    ensures !(featureOn && courseEnabled) ==> registry.rows == old(registry.rows)
    ensures featureOn && courseEnabled ==> Reconciled(old(registry.rows), registry.rows, courseId, TimedInTree(items))
  {
    if !featureOn || !courseEnabled { return; }
    var timed := SelectInTree(items);
    SyncTimed(registry, courseId, timed);
    ghost var middle := registry.rows;
    DisableOthers(registry, courseId, timed);
    SyncedThenDisabled(old(registry.rows), middle, registry.rows, courseId, timed);
  }

  method SelectInTree(items: seq<Sequence>) returns (timed: seq<Sequence>)
    ensures timed == TimedInTree(items)
  {
    timed := [];
    assert items[0..] == items;
    for i := 0 to |items|
      invariant timed + TimedInTree(items[i..]) == TimedInTree(items)
    {
      assert items[i..][1..] == items[i + 1..];
      var inTree := IsItemInCourseTree(items[i]);
      if inTree { timed := timed + [items[i]]; }
    }
  }

  /** First loop: every timed sequence gets a synced, active row. */
  method SyncTimed(registry: Registry, courseId: string, timed: seq<Sequence>)
    requires registry.Ready() && DistinctLocations(timed)
    modifies registry
    ensures registry.Ready()
    ensures Synced(old(registry.rows), registry.rows, courseId, timed, false)
  {
    for i := 0 to |timed|
      invariant registry.Ready()
      invariant Synced(old(registry.rows), registry.rows, courseId, timed[..i], false)
    {
      var s := timed[i];
      ghost var last := registry.rows;
      ghost var target: nat;
      var found := registry.GetExamByContentId(courseId, s.location);
      if found.Some? {
        registry.UpdateExam(found.value.id, Some(s.name), Some(s.minutes), s.proctored, true);
        target := found.value.id;
      } else {
        target := registry.CreateExam(courseId, s);
      }
      assert timed[..i + 1] == timed[..i] + [s];
      assert forall d <- timed[..i] :: d.location != s.location;
      SyncStep(old(registry.rows), last, registry.rows, courseId, timed[..i], s, target);
    }
    assert timed[..|timed|] == timed;
  }

  lemma {:induction false} FindSnoc(timed: seq<Sequence>, s: Sequence, location: string)
    ensures Find(timed + [s], location)
         == if Find(timed, location).None? && s.location == location then Some(s) else Find(timed, location)
  {
    if timed == [] {
      assert timed + [s] == [s];
    } else {
      assert (timed + [s])[1..] == timed[1..] + [s];
      FindSnoc(timed[1..], s, location);
    }
  }

  /** One more sequence `s`: its row `target`, found or new, was set from it. */
  ghost predicate StepsTo(last: Rows, now: Rows, courseId: string, s: Sequence, target: nat) {
    && Valid(now) && now == last[target := NewExam(target, courseId, s)]
    && (if target in last then Same(last[target], courseId, s.location)
        else forall id <- last :: !Same(last[id], courseId, s.location))
  }

  lemma SyncStep(
      before: Rows, last: Rows, now: Rows, courseId: string, done: seq<Sequence>, s: Sequence, target: nat)
    requires Valid(before) && Synced(before, last, courseId, done, false) && StepsTo(last, now, courseId, s, target)
    requires forall d <- done :: d.location != s.location
    ensures Synced(before, now, courseId, done + [s], false)
  {
    forall id | id in before ensures now[id] == Outcome(before[id], courseId, done + [s], false) {
      SyncOld(before, last, now, courseId, done, s, target, id);
    }
    forall id | id in now && id !in before ensures Created(before, now, courseId, done + [s], id) {
      SyncNew(before, last, now, courseId, done, s, target, id);
    }
    forall d | d in done + [s] ensures Registered(now, courseId, d) {
      if d in done {
        var id :| id in last && Same(last[id], courseId, d.location);
        assert Same(now[id], courseId, d.location);
      } else {
        assert Same(now[target], courseId, d.location);
      }
    }
  }

  lemma SyncOld(
      before: Rows, last: Rows, now: Rows, courseId: string, done: seq<Sequence>, s: Sequence, target: nat, id: nat)
    requires Synced(before, last, courseId, done, false) && StepsTo(last, now, courseId, s, target)
    requires id in before && forall d <- done :: d.location != s.location
    requires Valid(before)
    ensures now[id] == Outcome(before[id], courseId, done + [s], false)
  {
    var e := before[id];
    FindSnoc(done, s, e.contentId);
    FindIs(done, e.contentId);
    FindIs(done, s.location);
    assert last[id] == Outcome(e, courseId, done, false);
    assert Same(now[target], courseId, s.location);
    if id != target && Same(last[id], courseId, s.location) { assert false; }
  }

  lemma SyncNew(
      before: Rows, last: Rows, now: Rows, courseId: string, done: seq<Sequence>, s: Sequence, target: nat, id: nat)
    requires Synced(before, last, courseId, done, false) && StepsTo(last, now, courseId, s, target)
    requires id in now && id !in before && forall d <- done :: d.location != s.location
    ensures Created(before, now, courseId, done + [s], id)
  {
    if id == target {
      assert s in done + [s];
      forall j | j in before ensures !Same(before[j], courseId, s.location) {
        assert last[j] == Outcome(before[j], courseId, done, false);
        FindIs(done, before[j].contentId);
        if Same(before[j], courseId, s.location) {
          assert Same(last[j], courseId, s.location);
          assert false;
        }
      }
    } else {
      assert Created(before, last, courseId, done, id);
      var d :| d in done && last[id] == NewExam(id, courseId, d)
        && forall j <- before :: !Same(before[j], courseId, d.location);
      assert d in done + [s];
    }
  }

  ghost predicate DisablesTo(middle: Rows, after: Rows, courseId: string, timed: seq<Sequence>) {
    && Valid(after) && after.Keys == middle.Keys
    && forall id <- after :: after[id] == Disabled(middle[id], courseId, timed)
  }

  lemma DisabledOld(e: Exam, courseId: string, timed: seq<Sequence>)
    ensures Disabled(Outcome(e, courseId, timed, false), courseId, timed) == Outcome(e, courseId, timed, true)
  {
    FindIs(timed, e.contentId);
  }

  lemma DisabledNew(before: Rows, middle: Rows, after: Rows, courseId: string, timed: seq<Sequence>, id: nat)
    requires DisablesTo(middle, after, courseId, timed) && id in middle
    requires Created(before, middle, courseId, timed, id)
    ensures Created(before, after, courseId, timed, id)
  {
    var s :| s in timed && middle[id] == NewExam(id, courseId, s)
      && forall i <- before :: !Same(before[i], courseId, s.location);
    FindIs(timed, s.location);
    assert after[id] == NewExam(id, courseId, s);
  }

  lemma DisabledRegistered(middle: Rows, after: Rows, courseId: string, timed: seq<Sequence>, s: Sequence)
    requires DisablesTo(middle, after, courseId, timed) && Registered(middle, courseId, s)
    ensures Registered(after, courseId, s)
  {
    var id :| id in middle && Same(middle[id], courseId, s.location);
    assert Same(after[id], courseId, s.location);
  }

  lemma SyncedThenDisabled(before: Rows, middle: Rows, after: Rows, courseId: string, timed: seq<Sequence>)
    requires Synced(before, middle, courseId, timed, false) && DisablesTo(middle, after, courseId, timed)
    ensures Reconciled(before, after, courseId, timed)
  {
    forall id | id in before ensures id in after && after[id] == Outcome(before[id], courseId, timed, true) {
      DisabledOld(before[id], courseId, timed);
    }
    forall id | id in after && id !in before ensures Created(before, after, courseId, timed, id) {
      DisabledNew(before, middle, after, courseId, timed, id);
    }
    forall s | s in timed ensures Registered(after, courseId, s) {
      DisabledRegistered(middle, after, courseId, timed, s);
    }
  }

  /** Second loop: active rows of the course without a timed sequence are switched off. */
  method DisableOthers(registry: Registry, courseId: string, timed: seq<Sequence>)
    requires registry.Ready()
    modifies registry
    ensures registry.Ready() && registry.rows.Keys == old(registry.rows).Keys
    ensures forall id <- registry.rows :: registry.rows[id] == Disabled(old(registry.rows)[id], courseId, timed)
  {
    var exams := registry.GetAllExamsForCourse(courseId);
    for i := 0 to |exams|
      invariant registry.Ready() && registry.rows.Keys == old(registry.rows).Keys
      invariant forall id <- registry.rows ::
        registry.rows[id] == DisabledIf(old(registry.rows)[id], exams[..i], courseId, timed)
    {
      var e := exams[i];
      assert exams[..i + 1] == exams[..i] + [e];
      if e.active {
        var search := Find(timed, e.contentId);
        if search.None? { registry.UpdateExam(e.id, None, None, false, false); }
      }
    }
    assert exams[..|exams|] == exams;
  }

  function DisabledIf(e: Exam, exams: seq<Exam>, courseId: string, timed: seq<Sequence>): Exam {
    if e in exams then Disabled(e, courseId, timed) else e
  }

  function Disabled(e: Exam, courseId: string, timed: seq<Sequence>): Exam {
    if e.courseId == courseId && e.active && Find(timed, e.contentId).None?
    then e.(proctored := false, active := false) else e
  }

  // ------------------------------------------------------- what reconciling means

  lemma OldRowAfter(before: Rows, after: Rows, courseId: string, timed: seq<Sequence>, id: nat)
    requires Reconciled(before, after, courseId, timed) && id in before
    ensures id in after && Same(after[id], before[id].courseId, before[id].contentId)
    ensures before[id].courseId != courseId ==> after[id] == before[id]
    ensures before[id].courseId == courseId && (forall s <- timed :: s.location != before[id].contentId) ==>
      after[id] == if before[id].active then before[id].(proctored := false, active := false) else before[id]
    ensures before[id].courseId == courseId && (exists s <- timed :: s.location == before[id].contentId) ==>
      exists s <- timed :: after[id] == NewExam(before[id].id, courseId, s)
  {
    FindIs(timed, before[id].contentId);
  }

  lemma ActiveRowHasSequence(before: Rows, after: Rows, courseId: string, timed: seq<Sequence>, id: nat)
    requires Valid(before) && Reconciled(before, after, courseId, timed)
    requires id in after && after[id].courseId == courseId && after[id].active
    ensures exists s <- timed :: after[id] == NewExam(id, courseId, s)
  {
    if id in before {
      OldRowAfter(before, after, courseId, timed, id);
    } else {
      assert Created(before, after, courseId, timed, id);
    }
  }

  lemma SequenceHasRow(before: Rows, after: Rows, courseId: string, timed: seq<Sequence>, s: Sequence)
    requires Valid(before) && DistinctLocations(timed) && Reconciled(before, after, courseId, timed) && s in timed
    ensures exists id <- after :: after[id] == NewExam(id, courseId, s)
  {
    var id :| id in after && Same(after[id], courseId, s.location);
    FindIs(timed, s.location);
    if id in before {
      OldRowAfter(before, after, courseId, timed, id);
      FindIs(timed, before[id].contentId);
    } else {
      var t :| t in timed && after[id] == NewExam(id, courseId, t);
    }
  }

  /**
   * After reconciling, the active rows of the course are exactly its timed sequences, one
   * row each with the fields of the sequence; every old row is still there under its id,
   * and rows of other courses are unchanged.
   */
  lemma ActiveRowsAreTimed(before: Rows, after: Rows, courseId: string, timed: seq<Sequence>)
    requires Valid(before) && DistinctLocations(timed) && Reconciled(before, after, courseId, timed)
    ensures forall s <- timed :: exists id <- after :: IsSynced(after[id], id, courseId, s)
    ensures forall a, b | a in after && b in after && Same(after[a], after[b].courseId, after[b].contentId) :: a == b
    ensures forall id <- after | after[id].courseId == courseId && after[id].active ::
      exists s <- timed :: IsSynced(after[id], id, courseId, s)
    ensures forall id <- before :: id in after && Same(after[id], before[id].courseId, before[id].contentId)
    ensures forall id <- before | before[id].courseId != courseId :: after[id] == before[id]
    ensures forall id <- before | before[id].courseId == courseId && Unlisted(timed, before[id].contentId) ::
      && !after[id].active && after[id].name == before[id].name && after[id].minutes == before[id].minutes
      && (if before[id].active then !after[id].proctored else after[id] == before[id])
    ensures forall id <- after | id !in before :: after[id].courseId == courseId
  {
    forall id | id in before
      ensures id in after && Same(after[id], before[id].courseId, before[id].contentId)
      ensures before[id].courseId != courseId ==> after[id] == before[id]
      ensures before[id].courseId == courseId && Unlisted(timed, before[id].contentId) ==>
        after[id] == if before[id].active then before[id].(proctored := false, active := false) else before[id]
    {
      OldRowAfter(before, after, courseId, timed, id);
    }
    forall id | id in after && after[id].courseId == courseId && after[id].active
      ensures exists s <- timed :: after[id] == NewExam(id, courseId, s)
    {
      ActiveRowHasSequence(before, after, courseId, timed, id);
    }
    forall s | s in timed ensures exists id <- after :: after[id] == NewExam(id, courseId, s) {
      SequenceHasRow(before, after, courseId, timed, s);
    }
    forall id | id in after && id !in before ensures after[id].courseId == courseId {
      assert Created(before, after, courseId, timed, id);
    }
  }

  /** The row is active and has every field of the sequence. */
  predicate IsSynced(e: Exam, id: nat, courseId: string, s: Sequence) {
    && e.id == id && e.courseId == courseId && e.contentId == s.location
    && e.name == s.name && e.minutes == s.minutes && e.proctored == s.proctored && e.active
  }

  /** No timed sequence has the location. */
  predicate Unlisted(timed: seq<Sequence>, location: string) {
    forall s <- timed :: s.location != location
  }

  lemma RowStays(a: Rows, b: Rows, c: Rows, courseId: string, timed: seq<Sequence>, id: nat)
    requires Valid(a) && DistinctLocations(timed) && id in b
    requires Reconciled(a, b, courseId, timed) && Reconciled(b, c, courseId, timed)
    ensures id in c && c[id] == b[id]
  {
    if b[id].courseId == courseId {
      forall s | s in timed ensures exists i <- b :: b[i] == NewExam(i, courseId, s) {
        SequenceHasRow(a, b, courseId, timed, s);
      }
      if b[id].active { ActiveRowHasSequence(a, b, courseId, timed, id); }
      RowIsSettled(b, courseId, timed, id);
    }
  }

  /** A second run changes nothing. */
  lemma ReconcilingIsIdempotent(a: Rows, b: Rows, c: Rows, courseId: string, timed: seq<Sequence>)
    requires Valid(a) && DistinctLocations(timed)
    requires Reconciled(a, b, courseId, timed) && Reconciled(b, c, courseId, timed)
    ensures c == b
  {
    forall id | id in b ensures id in c && c[id] == b[id] { RowStays(a, b, c, courseId, timed, id); }
    forall id | id in c ensures id in b {
      if id !in b { NothingCreated(b, c, courseId, timed, id); }
    }
  }

  lemma NothingCreated(b: Rows, c: Rows, courseId: string, timed: seq<Sequence>, id: nat)
    requires id in c && forall s <- timed :: Registered(b, courseId, s)
    ensures !Created(b, c, courseId, timed, id)
  {
  }

  lemma RowIsSettled(b: Rows, courseId: string, timed: seq<Sequence>, id: nat)
    requires Valid(b) && DistinctLocations(timed) && id in b && b[id].courseId == courseId
    requires forall s <- timed :: exists i <- b :: b[i] == NewExam(i, courseId, s)
    requires b[id].active ==> exists s <- timed :: b[id] == NewExam(id, courseId, s)
    ensures Outcome(b[id], courseId, timed, true) == b[id]
  {
    var found := Find(timed, b[id].contentId);
    FindIs(timed, b[id].contentId);
    if found.Some? {
      var i :| i in b && b[i] == NewExam(i, courseId, found.value);
      assert Same(b[i], b[id].courseId, b[id].contentId);
    }
  }
}
