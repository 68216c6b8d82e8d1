/** The course rerun task and its progress rows, with a failure possible at every step. */
module CourseRerun {
  import opened Common

  const IN_PROGRESS := "in_progress"
  const FAILED := "failed"
  const SUCCEEDED := "succeeded"
  const MAX_MESSAGE_LENGTH := 1000

  datatype Row = Row(
    state: string, shouldDisplay: bool, message: string, createdUser: Option<string>, updatedUser: Option<string>,
    source: Option<string>, displayName: string)

  const NEW_ROW := Row("", false, "", None, None, None, "")

  /** The extra fields that `initiated` sets. */
  datatype Extras = NoExtras | Origin(source: string, displayName: string)

  type Table = map<string, Row>

  function Changed(
      row: Row, state: string, shouldDisplay: bool, message: string, user: Option<string>, extras: Extras): Row
  {
    var r := row.(state := state, shouldDisplay := shouldDisplay, message := message,
                  updatedUser := if user.Some? then user else row.updatedUser);
    if extras.Origin? then r.(source := Some(extras.source), displayName := extras.displayName) else r
  }

  /** The row after an update, or None when there is no row and none may be made. */
  function Updated(
      table: Table, key: string, state: string, shouldDisplay: bool, message: string, user: Option<string>,
      allowNotFound: bool, extras: Extras): Option<Row> {
    if key in table then Some(Changed(table[key], state, shouldDisplay, message, user, extras))
    else if allowNotFound
    then Some(Changed(NEW_ROW.(createdUser := user), state, shouldDisplay, message, user, extras))
    else None
  }

  /** The last characters of a text, at most as many as a message holds. */
  function Tail(text: string): (t: string)
    ensures |t| <= MAX_MESSAGE_LENGTH && |t| <= |text| && t == text[|text| - |t|..]
    ensures |t| == MAX_MESSAGE_LENGTH || t == text
  {
    if |text| <= MAX_MESSAGE_LENGTH then text else text[|text| - MAX_MESSAGE_LENGTH..]
  }

  // ------------------------------------------------------------------- failures

  datatype Failure = Duplicate | NotFound | Other(text: string)

  datatype Fate = Fine | Fails(why: Failure)

  /**
   * How each step of one task run goes. `leavesRemnants` says whether a failing clone has
   * already made the destination.
   */
  datatype Plan = Plan(
    readFields: Fate, clone: Fate, leavesRemnants: bool, grantPermissions: Fate, saveSucceeded: Fate,
    copyVideos: Fate, saveFailed: Fate, cleanUp: Fate, traceback: string)

  /** The texts the task returns, "exception: " with its text included, or an escaping exception. */
  datatype Outcome = ReturnedSucceeded | ReturnedDuplicate | ReturnedException(text: string) | Raised

  datatype Site = Site(table: Table, courses: set<string>)

  function Describe(f: Failure): string {
    match f
    case Duplicate => "duplicate"
    case NotFound => "not found"
    case Other(text) => text
  }

  function Marked(table: Table, key: string, state: string, message: string): Table
    requires key in table
  {
    table[key := Changed(table[key], state, true, message, None, NoExtras)]
  }

  /** Cloning fails on an existing destination; another failure may leave a partial copy. */
  function Cloned(courses: set<string>, destination: string, plan: Plan): (set<string>, Fate) {
    if plan.clone.Fails? then
      (if plan.leavesRemnants && plan.clone.why != Duplicate then courses + {destination} else courses, plan.clone)
    else if destination in courses then (courses, Fails(Duplicate))
    else (courses + {destination}, Fine)
  }

  /** The steps of the task up to its first failure. */
  function Attempt(s: Site, destination: string, plan: Plan): (Site, Fate) {
    if plan.readFields.Fails? then (s, plan.readFields)
    else
      var (courses, clone) := Cloned(s.courses, destination, plan);
      var t := s.(courses := courses);
      if clone.Fails? then (t, clone)
      else if plan.grantPermissions.Fails? then (t, plan.grantPermissions)
      else if destination !in t.table then (t, Fails(NotFound))
      else if plan.saveSucceeded.Fails? then (t, plan.saveSucceeded)
      else (t.(table := Marked(t.table, destination, SUCCEEDED, "")), plan.copyVideos)
  }

  /** The whole task: a failure is recorded, and unless it is a duplicate the destination is deleted. */
  function Rerun(s: Site, destination: string, plan: Plan): (Site, Outcome) {
    var (t, fate) := Attempt(s, destination, plan);
    if fate == Fine then (t, ReturnedSucceeded)
    else if destination !in t.table || plan.saveFailed.Fails? then (t, Raised)
    else
      var u := t.(table := Marked(t.table, destination, FAILED, Tail(plan.traceback)));
      if fate.why == Duplicate then (u, ReturnedDuplicate)
      else if plan.cleanUp.Fails? && plan.cleanUp.why != NotFound then (u, Raised)
      else (u.(courses := u.courses - {destination}), ReturnedException(Describe(fate.why)))
  }

  // -------------------------------------------------------- what the task leaves

  /** How the steps of the task go, in order, were each of them reached. */
  function Steps(plan: Plan, there: bool): seq<Fate> {
    [plan.readFields,
     if plan.clone == Fine && there then Fails(Duplicate) else plan.clone,
     plan.grantPermissions, plan.saveSucceeded, plan.copyVideos]
  }

  /** The steps in front of `i` go well, and step `i`, if there is one, fails. */
  ghost predicate StopsAt(steps: seq<Fate>, i: nat) {
    && i <= |steps| && (forall j | 0 <= j < i :: steps[j] == Fine) && (i < |steps| ==> steps[i].Fails?)
  }

  predicate SparesCourse(plan: Plan, why: Failure) {
    why == Duplicate || plan.saveFailed.Fails? || (plan.cleanUp.Fails? && plan.cleanUp.why != NotFound)
  }

  /**
   * What the task returns and leaves behind, by the first step that fails. The second step
   * makes the destination, the fourth marks the row as succeeded, and recording a failure
   * may itself fail; the destination is deleted exactly when the failure is recorded, is
   * not a duplicate, and deleting works. Nothing else changes.
   */
  lemma OutcomeMatchesSite(s: Site, destination: string, plan: Plan, i: nat)
    requires destination in s.table && StopsAt(Steps(plan, destination in s.courses), i)
    ensures var steps := Steps(plan, destination in s.courses);
            var (t, outcome) := Rerun(s, destination, plan); var row := s.table[destination];
      && (i == |steps| ==>
            && outcome == ReturnedSucceeded && destination !in s.courses && destination in t.courses
            && t.table[destination] == row.(state := "succeeded", shouldDisplay := true, message := ""))
      && (i < |steps| && plan.saveFailed.Fails? ==> outcome == Raised)
      && (i < |steps| && plan.saveFailed == Fine ==>
            && t.table[destination]
                 == row.(state := "failed", shouldDisplay := true, message := Tail(plan.traceback))
            && (outcome == ReturnedDuplicate <==> steps[i].why == Duplicate)
            && (outcome == Raised <==> steps[i].why != Duplicate && SparesCourse(plan, steps[i].why))
            && (outcome != ReturnedDuplicate && outcome != Raised ==>
                  outcome == ReturnedException(Describe(steps[i].why))))
      && (i < |steps| && plan.saveFailed.Fails? ==>
            t.table[destination]
              == if i == 4 then row.(state := "succeeded", shouldDisplay := true, message := "") else row)
      && (i < |steps| && !SparesCourse(plan, steps[i].why) ==> destination !in t.courses)
      && (i < |steps| && SparesCourse(plan, steps[i].why) ==>
            (destination in t.courses <==>
               destination in s.courses || i > 1 || (i == 1 && steps[i].why != Duplicate && plan.leavesRemnants)))
      && t.table.Keys == s.table.Keys && t.courses - {destination} == s.courses - {destination}
      && forall key <- s.table | key != destination :: t.table[key] == s.table[key]
  {
    var steps := Steps(plan, destination in s.courses);
    assert steps[0] == plan.readFields && steps[2] == plan.grantPermissions;
    assert steps[3] == plan.saveSucceeded && steps[4] == plan.copyVideos;
    assert steps[1] == Cloned(s.courses, destination, plan).1;
    var (a, fate) := Attempt(s, destination, plan);
    assert fate == if i < |steps| then steps[i] else Fine;
    assert a.table == if i >= 4 then Marked(s.table, destination, SUCCEEDED, "") else s.table;
  }

  /** The first failure of a task whose destination is there already: reading, or else cloning. */
  function FirstFailure(plan: Plan): Failure {
    if plan.readFields.Fails? then plan.readFields.why
    else if plan.clone.Fails? then plan.clone.why
    else Duplicate
  }

  /**
   * A course that was there before the task began is deleted by it, unless the first
   * failure is a duplicate or the handler of another failure fails itself.
   */
  lemma ExistingCourseSurvives(s: Site, destination: string, plan: Plan)
    requires destination in s.table && destination in s.courses
    ensures destination in Rerun(s, destination, plan).0.courses <==> SparesCourse(plan, FirstFailure(plan))
  {
    OutcomeMatchesSite(s, destination, plan, if plan.readFields.Fails? then 0 else 1);
  }

  /**
   * A task that is delivered again after it succeeded, and goes in any way: the row stays
   * succeeded only if recording the failure fails, and the course that was made stays
   * only as any existing course does.
   */
  lemma RedeliveredTask(s: Site, destination: string, first: Plan, second: Plan)
    requires destination in s.table && Rerun(s, destination, first).1 == ReturnedSucceeded
    ensures var t := Rerun(s, destination, first).0; var (u, outcome) := Rerun(t, destination, second);
      && outcome != ReturnedSucceeded && t.table[destination].state == SUCCEEDED && destination in t.courses
      && (u.table[destination].state == SUCCEEDED <==> second.saveFailed.Fails?)
      && (u.table[destination].state == FAILED <==> second.saveFailed == Fine)
      && (destination in u.courses <==> SparesCourse(second, FirstFailure(second)))
  {
    var t := Rerun(s, destination, first).0;
    OutcomeMatchesSite(s, destination, first, 5);
    OutcomeMatchesSite(t, destination, second, if second.readFields.Fails? then 0 else 1);
  }

  /** A redelivered task that cannot read its fields deletes the course that the first delivery made. */
  lemma RedeliveryDeletes(s: Site, destination: string, first: Plan, why: string, second: Plan)
    requires destination in s.table && Rerun(s, destination, first).1 == ReturnedSucceeded
    requires second.readFields == Fails(Other(why)) && second.saveFailed == Fine && second.cleanUp == Fine
    ensures var t := Rerun(s, destination, first).0; var (u, outcome) := Rerun(t, destination, second);
      && outcome == ReturnedException(why) && destination in t.courses && destination !in u.courses
      && u.table[destination].state == FAILED
  {
    RedeliveredTask(s, destination, first, second);
    OutcomeMatchesSite(Rerun(s, destination, first).0, destination, second, 0);
  }

  class Server {
    var table: Table
    var courses: set<string>

    constructor ()
      ensures table == map[] && courses == {}
    {
      table, courses := map[], {};
    }

    /**
     * One transaction: the row is fetched or made, changed and saved; when the row may
     * not be made, or saving fails, everything is rolled back.
     */
    method UpdateState(
        key: string, state: string, message: string, user: Option<string>, allowNotFound: bool, extras: Extras,
        save: Fate)
      returns (r: Fate)
      modifies this`table
      ensures var row := Updated(old(table), key, state, true, message, user, allowNotFound, extras);
        if row.None? then r == Fails(NotFound) && table == old(table)
        else if save.Fails? then r == save && table == old(table)
        else r == Fine && table == old(table)[key := row.value]
    {
      var start := table;
      var created := key !in table;
      if created { table := table[key := NEW_ROW]; }
      if created {
        if !allowNotFound {
          table := start;
          return Fails(NotFound);
        }
        table := table[key := table[key].(createdUser := user)];
      }
      var row := table[key];
      if user.Some? { row := row.(updatedUser := user); }
      row := row.(state := state, shouldDisplay := true, message := message);
      if extras.Origin? { row := row.(source := Some(extras.source), displayName := extras.displayName); }
      if save.Fails? {
        table := start;
        return save;
      }
      table := table[key := row];
      return Fine;
    }

    method Initiated(source: string, key: string, user: string, displayName: string, save: Fate) returns (r: Fate)
      modifies this`table
      ensures r == save && (save.Fails? ==> table == old(table))
      ensures save == Fine ==> key in table && table == old(table)[key := table[key]]
      ensures save == Fine ==>
        var row := table[key];
        && row.state == IN_PROGRESS && row.source == Some(source) && row.displayName == displayName
        && row.updatedUser == Some(user) && row.shouldDisplay && row.message == ""
        && row.createdUser == if key in old(table) then old(table)[key].createdUser else Some(user)
    {
      r := UpdateState(key, IN_PROGRESS, "", Some(user), true, Origin(source, displayName), save);
    }

    method Succeeded(key: string, save: Fate) returns (r: Fate)
      modifies this`table
      ensures r == if key !in old(table) then Fails(NotFound) else save
      ensures table == if r == Fine then Marked(old(table), key, SUCCEEDED, "") else old(table)
    {
      r := UpdateState(key, SUCCEEDED, "", None, false, NoExtras, save);
    }

    method Failed(key: string, traceback: string, save: Fate) returns (r: Fate)
      modifies this`table
      ensures r == if key !in old(table) then Fails(NotFound) else save
      ensures table == if r == Fine then Marked(old(table), key, FAILED, Tail(traceback)) else old(table)
    {
      r := UpdateState(key, FAILED, Tail(traceback), None, false, NoExtras, save);
    }

    ghost function Contents(): Site
      reads this
    {
      Site(table, courses)
    }

    /** The contract of cloning a course into the destination. */
    method CloneCourse(destination: string, plan: Plan) returns (r: Fate)
      modifies this`courses
      ensures (courses, r) == Cloned(old(courses), destination, plan)
    {
      if plan.clone.Fails? {
        if plan.leavesRemnants && plan.clone.why != Duplicate { courses := courses + {destination}; }
        return plan.clone;
      }
      if destination in courses { return Fails(Duplicate); }
      courses := courses + {destination};
      return Fine;
    }

    /** The contract of deleting: afterwards the course is gone, or it was not there. */
    method DeleteCourse(key: string, fate: Fate) returns (r: Fate)
      modifies this`courses
      ensures fate.Fails? && fate.why != NotFound ==> r == fate && courses == old(courses)
      ensures !(fate.Fails? && fate.why != NotFound) ==>
        courses == old(courses) - {key} && r == if key in old(courses) then Fine else Fails(NotFound)
    {
      if fate.Fails? && fate.why != NotFound { return fate; }
      if key !in courses { return Fails(NotFound); }
      courses := courses - {key};
      return Fine;
    }

    method TryRerun(destination: string, plan: Plan) returns (r: Fate)
      modifies this
      ensures (Contents(), r) == Attempt(old(Contents()), destination, plan)
    {
      if plan.readFields.Fails? { return plan.readFields; }
      r := CloneCourse(destination, plan);
      if r.Fails? { return; }
      if plan.grantPermissions.Fails? { return plan.grantPermissions; }
      r := Succeeded(destination, plan.saveSucceeded);
      if r.Fails? { return; }
      return plan.copyVideos;
    }

    /** The task, given parsable course keys. */
    method RerunCourse(destination: string, plan: Plan) returns (outcome: Outcome)
      modifies this
      ensures (Contents(), outcome) == Rerun(old(Contents()), destination, plan)
    {
      var attempt := TryRerun(destination, plan);
      if attempt == Fine { return ReturnedSucceeded; }
      var failed := Failed(destination, plan.traceback, plan.saveFailed);
      if failed.Fails? { return Raised; }
      if attempt.why == Duplicate { return ReturnedDuplicate; }
      var deleted := DeleteCourse(destination, plan.cleanUp);
      if deleted.Fails? && deleted.why != NotFound { return Raised; }
      return ReturnedException(Describe(attempt.why));
    }
  }
}
