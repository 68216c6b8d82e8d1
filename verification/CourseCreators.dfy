/**
 * Course creation rights: a table of users and states, and the creator group kept in step
 * with it by a save that fires a signal which saves again.
 */
module CourseCreators {
  import opened Common

  datatype Standing = Unrequested | Pending | Granted | Denied

  datatype Row = Row(standing: Standing, changedAt: int, note: string)

  datatype Notice = ToUser(user: string, standing: Standing) | ToAdmins(user: string)

  datatype State = State(rows: map<string, Row>, group: set<string>, notices: seq<Notice>, writes: nat, now: int)

  /** What a change of standing must announce. */
  function Announced(user: string, before: Standing, after: Standing): seq<Notice> {
    if before == after then []
    else
      (if after == Denied || before == Granted || after == Granted then [ToUser(user, after)] else [])
      + (if after == Pending then [ToAdmins(user)] else [])
  }

  function Regrouped(group: set<string>, user: string, before: Standing, after: Standing): set<string> {
    if after == Granted && before != Granted then group + {user}
    else if before == Granted && after != Granted then group - {user}
    else group
  }

  /** Saving an instance of `user` loaded with standing `before`. */
  function AfterSave(s: State, user: string, before: Standing, row: Row): State {
    if before == row.standing then s.(rows := s.rows[user := row], writes := s.writes + 1)
    else s.(rows := s.rows[user := row.(changedAt := s.now)],
            group := Regrouped(s.group, user, before, row.standing),
            notices := s.notices + Announced(user, before, row.standing),
            writes := s.writes + 2)
  }

  // ---------------------------------------------------------------------- classes

  /** The table, the creator group and the notifications sent. */
  class Site {
    const staff: set<string>
    var rows: map<string, Row>
    var group: set<string>
    var notices: seq<Notice>
    var writes: nat
    var now: int

    constructor (staff: set<string>, now: int)
      ensures this.staff == staff && Contents() == State(map[], {}, [], 0, now)
    {
      this.staff, this.now := staff, now;
      rows, group, notices, writes := map[], {}, [], 0;
    }

    ghost function Contents(): State
      reads this
    {
      State(rows, group, notices, writes, now)
    }

    /** The group is only changed on behalf of staff. */
    method UpdateCourseCreatorGroup(caller: string, user: string, add: bool)
      requires caller in staff
      modifies this`group
      ensures group == if add then old(group) + {user} else old(group) - {user}
    {
      if add { group := group + {user}; } else { group := group - {user}; }
    }

    /** Adds a row unless the user is staff or has one. */
    method AddUser(user: string, standing: Standing) returns (added: bool)
      modifies this
      ensures added <==> user !in staff && user !in old(rows)
      ensures Contents() == if added then AfterSave(old(Contents()), user, standing, Row(standing, now, ""))
                            else old(Contents())
    {
      if user !in staff && user !in rows {
        var entry := new CourseCreator(this, user, Row(standing, now, ""));
        entry.Save();
        return true;
      }
      return false;
    }

    method AddUserWithStatusUnrequested(user: string)
      modifies this
      ensures Contents() == Step(staff, old(Contents()), AddUnrequested(user))
    {
      var _ := AddUser(user, Unrequested);
    }

    method AddUserWithStatusGranted(caller: string, user: string)
      requires caller in staff
      modifies this
      ensures Contents() == Step(staff, old(Contents()), AddGranted(caller, user))
    {
      var added := AddUser(user, Granted);
      if added { UpdateCourseCreatorGroup(caller, user, true); }
    }

    /** Fails when the user has no row. */
    method UserRequestedAccess(user: string) returns (found: bool)
      modifies this
      ensures found <==> user in old(rows)
      ensures Contents() == Step(staff, old(Contents()), RequestAccess(user))
    {
      if user !in rows { return false; }
      var entry := new CourseCreator(this, user, rows[user]);
      if entry.standing != Granted {
        entry.standing := Pending;
        entry.Save();
      }
      return true;
    }

    /** The admin form: a staff user sets the standing and the note of a loaded row. */
    method SaveModel(admin: string, user: string, standing: Standing, note: string)
      requires admin in staff && user in rows
      modifies this
      ensures Contents() == Step(staff, old(Contents()), AdminSave(admin, user, standing, note))
    {
      var entry := new CourseCreator(this, user, rows[user]);
      entry.standing, entry.note := standing, note;
      entry.admin := Some(admin);
      entry.Save();
    }
  }

  /** A row in memory; `origStanding` is its standing when it was loaded or last settled. */
  class CourseCreator {
    const site: Site
    const user: string
    var standing: Standing
    var origStanding: Standing
    var changedAt: int
    var note: string
    var admin: Option<string>

    /** Loading or creating an instance remembers its standing. */
    constructor (site: Site, user: string, row: Row)
      ensures this.site == site && this.user == user && admin == None
      ensures origStanding == standing == row.standing && changedAt == row.changedAt && note == row.note
    {
      this.site, this.user, admin := site, user, None;
      standing, origStanding, changedAt, note := row.standing, row.standing, row.changedAt, row.note;
    }

    /** Changing the group needs a stored staff user: the assertion of the callback. */
    predicate HasAdminIfNeeded()
      reads this
    {
      standing != origStanding && (standing == Granted || origStanding == Granted) ==>
        admin.Some? && admin.value in site.staff
    }

    method Save()
      requires HasAdminIfNeeded()
      modifies this, site
      ensures site.Contents() ==
        AfterSave(old(site.Contents()), user, old(origStanding), Row(old(standing), old(changedAt), old(note)))
      ensures standing == origStanding == old(standing)
      decreases if standing != origStanding then 1 else 0, 1
    {
      site.rows := site.rows[user := Row(standing, changedAt, note)];
      site.writes := site.writes + 1;
      PostSave();
    }

    method PostSave()
      requires HasAdminIfNeeded()
      requires user in site.rows && site.rows[user] == Row(standing, changedAt, note)
      requires site.writes > 0
      modifies this, site
      ensures standing == origStanding == old(standing)
      ensures old(standing) == old(origStanding) ==> site.Contents() == old(site.Contents())
      ensures old(standing) != old(origStanding) ==>
        var s := old(site.Contents());
        site.Contents() == AfterSave(s.(writes := s.writes - 1), user, old(origStanding), s.rows[user])
      decreases if standing != origStanding then 1 else 0, 0
    {
      if standing != origStanding {
        var grantedChange := standing == Granted || origStanding == Granted;
        if grantedChange {
          assert admin.Some?;
          site.UpdateCourseCreatorGroup(admin.value, user, standing == Granted);
        }
        if standing == Denied || grantedChange { site.notices := site.notices + [ToUser(user, standing)]; }
        if standing == Pending { site.notices := site.notices + [ToAdmins(user)]; }
        changedAt := site.now;
        origStanding := standing;
        Save();
      }
    }
  }

  // ------------------------------------------------------------------------- runs

  datatype Op =
    | AddUnrequested(user: string)
    | AddGranted(caller: string, user: string)
    | RequestAccess(user: string)
    | AdminSave(admin: string, user: string, standing: Standing, note: string)
    | Pass(seconds: nat)

  function Added(staff: set<string>, s: State, user: string, standing: Standing): State {
    if user in staff || user in s.rows then s
    else AfterSave(s, user, standing, Row(standing, s.now, ""))
  }

  function Step(staff: set<string>, s: State, op: Op): State {
    match op
    case AddUnrequested(user) => Added(staff, s, user, Unrequested)
    case AddGranted(_, user) =>
      var t := Added(staff, s, user, Granted);
      if user in staff || user in s.rows then s else t.(group := t.group + {user})
    case RequestAccess(user) =>
      if user !in s.rows || s.rows[user].standing == Granted then s
      else AfterSave(s, user, s.rows[user].standing, s.rows[user].(standing := Pending))
    case AdminSave(_, user, standing, note) =>
      if user !in s.rows then s
      else AfterSave(s, user, s.rows[user].standing, s.rows[user].(standing := standing, note := note))
    case Pass(seconds) => s.(now := s.now + seconds)
  }

  function Run(staff: set<string>, s: State, ops: seq<Op>): State
    decreases ops
  {
    if ops == [] then s else Run(staff, Step(staff, s, ops[0]), ops[1..])
  }

  function StandingOf(s: State, user: string): Option<Standing> {
    if user in s.rows then Some(s.rows[user].standing) else None
  }

  ghost predicate InStep(s: State) {
    forall user :: user in s.group <==> StandingOf(s, user) == Some(Granted)
  }

  lemma StepKeepsInStep(staff: set<string>, s: State, op: Op)
    requires InStep(s)
    ensures InStep(Step(staff, s, op))
  {
    var t := Step(staff, s, op);
    forall user ensures user in t.group <==> StandingOf(t, user) == Some(Granted) {
      assert user in s.group <==> StandingOf(s, user) == Some(Granted);
    }
  }

  /** In every run of requests a user is in the creator group exactly when the row says granted. */
  lemma {:induction false} GroupMatchesTable(staff: set<string>, s: State, ops: seq<Op>)
    requires InStep(s)
    ensures InStep(Run(staff, s, ops))
    decreases ops
  {
    if ops != [] {
      StepKeepsInStep(staff, s, ops[0]);
      GroupMatchesTable(staff, Step(staff, s, ops[0]), ops[1..]);
    }
  }

  // -------------------------------------------------- what was last asked for

  datatype Asked = Asked(standing: Standing, note: string)

  /**
   * What a user's row should hold after an operation, by what it should hold before. Staff
   * get no row and only the first addition counts; a request makes a row pending unless it
   * is granted; an admin sets both standing and note; nothing that is asked for another
   * user matters.
   */
  function AskedAfter(staff: set<string>, asked: Option<Asked>, op: Op, user: string): Option<Asked> {
    match op
    case AddUnrequested(u) =>
      if u == user && asked.None? && user !in staff then Some(Asked(Unrequested, "")) else asked
    case AddGranted(_, u) =>
      if u == user && asked.None? && user !in staff then Some(Asked(Granted, "")) else asked
    case RequestAccess(u) =>
      if u == user && asked.Some? && asked.value.standing != Granted
      then Some(Asked(Pending, asked.value.note)) else asked
    case AdminSave(_, u, standing, note) =>
      if u == user && asked.Some? then Some(Asked(standing, note)) else asked
    case Pass(_) => asked
  }

  /** The same over a run, read from its operations alone. */
  function LastAsked(staff: set<string>, asked: Option<Asked>, ops: seq<Op>, user: string): Option<Asked>
    decreases ops
  {
    if ops == [] then asked else LastAsked(staff, AskedAfter(staff, asked, ops[0], user), ops[1..], user)
  }

  ghost predicate HoldsAsked(s: State, user: string, asked: Option<Asked>) {
    if user in s.rows then asked == Some(Asked(s.rows[user].standing, s.rows[user].note)) else asked.None?
  }

  lemma StepHoldsAsked(staff: set<string>, s: State, op: Op, user: string, asked: Option<Asked>)
    requires HoldsAsked(s, user, asked)
    ensures HoldsAsked(Step(staff, s, op), user, AskedAfter(staff, asked, op, user))
  {
  }

  /** In every run each user's row has the standing and the note that were last asked for. */
  lemma {:induction false} RowsHoldLastAsked(
      staff: set<string>, s: State, ops: seq<Op>, user: string, asked: Option<Asked>)
    requires HoldsAsked(s, user, asked)
    ensures HoldsAsked(Run(staff, s, ops), user, LastAsked(staff, asked, ops, user))
    decreases ops
  {
    if ops != [] {
      StepHoldsAsked(staff, s, ops[0], user, asked);
      RowsHoldLastAsked(staff, Step(staff, s, ops[0]), ops[1..], user, AskedAfter(staff, asked, ops[0], user));
    }
  }

  /** What is done for one user leaves the rows of all others as they were, dates included. */
  lemma OtherRowsStay(staff: set<string>, s: State, op: Op, user: string)
    requires Subject(op) != Some(user)
    ensures Lookup(Step(staff, s, op).rows, user) == Lookup(s.rows, user)
    ensures user in Step(staff, s, op).group <==> user in s.group
  {
  }

  // ----------------------------------------------------------- what users hear

  /** The user whose row an operation may write. */
  function Subject(op: Op): Option<string> {
    match op
    case Pass(_) => None
    case _ => Some(op.user)
  }

  /** The notices that concern a user, in the order in which they were sent. */
  function NoticesOf(notices: seq<Notice>, user: string): seq<Notice> {
    if notices == [] then []
    else
      var last := notices[|notices| - 1];
      NoticesOf(notices[..|notices| - 1], user) + if last.user == user then [last] else []
  }

  lemma {:induction false} NoticesOfConcat(a: seq<Notice>, b: seq<Notice>, user: string)
    ensures NoticesOf(a + b, user) == NoticesOf(a, user) + NoticesOf(b, user)
  {
    if b == [] {
      assert a + b == a;
    } else {
      var front := b[..|b| - 1];
      assert (a + b)[..|a + b| - 1] == a + front;
      NoticesOfConcat(a, front, user);
    }
  }

  /**
   * What going from one standing to another calls for: the user hears of being granted or
   * denied and of losing a grant, the admins of a pending user. A new row, or no change,
   * calls for nothing.
   */
  function CalledFor(user: string, before: Option<Standing>, after: Option<Standing>): seq<Notice> {
    match (before, after)
    case (Some(Granted), Some(Unrequested)) => [ToUser(user, Unrequested)]
    case (Some(Granted), Some(Pending)) => [ToUser(user, Pending), ToAdmins(user)]
    case (Some(Granted), Some(Denied)) => [ToUser(user, Denied)]
    case (Some(Denied), Some(Granted)) => [ToUser(user, Granted)]
    case (Some(Denied), Some(Pending)) => [ToAdmins(user)]
    case (Some(Pending), Some(Granted)) => [ToUser(user, Granted)]
    case (Some(Pending), Some(Denied)) => [ToUser(user, Denied)]
    case (Some(Unrequested), Some(Granted)) => [ToUser(user, Granted)]
    case (Some(Unrequested), Some(Denied)) => [ToUser(user, Denied)]
    case (Some(Unrequested), Some(Pending)) => [ToAdmins(user)]
    case _ => []
  }

  lemma CalledForIsAnnounced(user: string, before: Standing, after: Standing)
    ensures CalledFor(user, Some(before), Some(after)) == Announced(user, before, after)
  {
  }

  lemma {:induction false} AnnouncedConcerns(subject: string, before: Standing, after: Standing, user: string)
    ensures NoticesOf(Announced(subject, before, after), user)
         == if user == subject then Announced(subject, before, after) else []
  {
    var told := if after == Denied || before == Granted || after == Granted then [ToUser(subject, after)] else [];
    var asked := if after == Pending then [ToAdmins(subject)] else [];
    if before != after {
      NoticesOfConcat(told, asked, user);
      NoticesOfOne(ToUser(subject, after), user);
      NoticesOfOne(ToAdmins(subject), user);
    }
  }

  lemma {:induction false} NoticesOfOne(n: Notice, user: string)
    ensures NoticesOf([n], user) == if n.user == user then [n] else []
  {
    assert [n][..0] == [];
  }

  /** A new row is made by adding the user only, and is announced to nobody, whatever its standing. */
  lemma NewRowsAreSilent(staff: set<string>, s: State, op: Op, user: string)
    requires user !in s.rows && user in Step(staff, s, op).rows
    ensures var t := Step(staff, s, op);
      && t.notices == s.notices && user !in staff
      && (op == AddUnrequested(user) || (op.AddGranted? && op.user == user))
      && t.rows[user] == Row(if op.AddGranted? then Granted else Unrequested, s.now, "")
  {
  }

  /** One request sends exactly what the change of its subject's standing calls for. */
  lemma StepAnnounces(staff: set<string>, s: State, op: Op)
    ensures var t := Step(staff, s, op); var subject := Subject(op);
      t.notices == s.notices + if subject.None? then []
        else CalledFor(subject.value, StandingOf(s, subject.value), StandingOf(t, subject.value))
  {
  }

  lemma StepStandings(staff: set<string>, s: State, op: Op, user: string)
    ensures var t := Step(staff, s, op);
      && (user in s.rows ==> user in t.rows)
      && (Subject(op) != Some(user) ==> StandingOf(t, user) == StandingOf(s, user))
  {
  }

  lemma {:induction false} CalledForConcerns(
      subject: string, before: Option<Standing>, after: Option<Standing>, user: string)
    ensures NoticesOf(CalledFor(subject, before, after), user)
         == if user == subject then CalledFor(subject, before, after) else []
  {
    if before.Some? && after.Some? {
      CalledForIsAnnounced(subject, before.value, after.value);
      AnnouncedConcerns(subject, before.value, after.value, user);
    }
  }

  lemma {:induction false} StepNotices(staff: set<string>, s: State, op: Op, user: string)
    ensures var t := Step(staff, s, op);
      && NoticesOf(t.notices, user)
           == NoticesOf(s.notices, user) + CalledFor(user, StandingOf(s, user), StandingOf(t, user))
      && (user in s.rows ==> user in t.rows)
  {
    var subject := Subject(op);
    StepAnnounces(staff, s, op);
    StepStandings(staff, s, op, user);
    if subject.Some? {
      var before, after := StandingOf(s, subject.value), StandingOf(Step(staff, s, op), subject.value);
      NoticesOfConcat(s.notices, CalledFor(subject.value, before, after), user);
      CalledForConcerns(subject.value, before, after, user);
    }
  }

  /** The standing of a user before, between and after the operations of a run. */
  function History(staff: set<string>, s: State, ops: seq<Op>, user: string): (h: seq<Option<Standing>>)
    ensures |h| == |ops| + 1
    decreases ops
  {
    [StandingOf(s, user)] + if ops == [] then [] else History(staff, Step(staff, s, ops[0]), ops[1..], user)
  }

  function CalledForBy(user: string, history: seq<Option<Standing>>): seq<Notice> {
    if |history| < 2 then []
    else CalledFor(user, history[0], history[1]) + CalledForBy(user, history[1..])
  }

  /**
   * In every run the notices that concern a user are exactly those that the changes of the
   * user's standing call for, each once and in order, whatever happens to other users.
   */
  lemma {:induction false} RequestsAnnounce(staff: set<string>, s: State, ops: seq<Op>, user: string)
    ensures NoticesOf(Run(staff, s, ops).notices, user)
         == NoticesOf(s.notices, user) + CalledForBy(user, History(staff, s, ops, user))
    decreases ops
  {
    if ops != [] {
      var t := Step(staff, s, ops[0]);
      var later := History(staff, t, ops[1..], user);
      StepNotices(staff, s, ops[0], user);
      RequestsAnnounce(staff, t, ops[1..], user);
      assert History(staff, s, ops, user)[1..] == later && later[0] == StandingOf(t, user);
    }
  }

  /** The standing that the last message to the user names. */
  function LastHeard(mail: seq<Notice>): Option<Standing> {
    if mail == [] then None
    else
      match mail[|mail| - 1]
      case ToUser(_, standing) => Some(standing)
      case ToAdmins(_) => LastHeard(mail[..|mail| - 1])
  }

  lemma {:induction false} LastHeardAfter(mail: seq<Notice>, n: Notice)
    ensures LastHeard(mail + [n]) == if n.ToUser? then Some(n.standing) else LastHeard(mail)
  {
    assert (mail + [n])[..|mail|] == mail;
  }

  predicate GrantedOrNone(standing: Option<Standing>) { standing == None || standing == Some(Granted) }

  /** The user never had a row that was anything but granted. */
  predicate OnlyGranted(history: seq<Option<Standing>>) {
    forall x <- history :: GrantedOrNone(x)
  }

  /** What a user knows; `only` if the row has never been anything but granted. */
  ghost predicate Informed(user: string, mail: seq<Notice>, standing: Option<Standing>, only: bool) {
    var heard := LastHeard(mail);
    && (standing.None? ==> only)
    && (only ==> mail == [] && GrantedOrNone(standing))
    && (standing == Some(Denied) ==> heard == Some(Denied))
    && (standing == Some(Granted) ==> heard == if only then None else Some(Granted))
    && (heard == Some(Granted) ==> standing == Some(Granted))
    && (standing == Some(Pending) ==> ToAdmins(user) in mail)
  }

  lemma ChangeInforms(user: string, mail: seq<Notice>, before: Option<Standing>, after: Option<Standing>, only: bool)
    requires Informed(user, mail, before, only) && (before.Some? ==> after.Some?)
    requires before.None? ==> after in {None, Some(Unrequested), Some(Granted)}
    ensures Informed(user, mail + CalledFor(user, before, after), after, only && GrantedOrNone(after))
  {
    var news := CalledFor(user, before, after);
    if before.None? || before == after {
      assert mail + news == mail;
    } else {
      var a, b := before.value, after.value;
      var told := if b == Denied || a == Granted || b == Granted then mail + [ToUser(user, b)] else mail;
      assert mail + news == if b == Pending then told + [ToAdmins(user)] else told;
      LastHeardAfter(mail, ToUser(user, b));
      LastHeardAfter(told, ToAdmins(user));
    }
  }

  lemma {:induction false} HistoryHead(staff: set<string>, s: State, ops: seq<Op>, user: string)
    requires ops != []
    ensures var later := History(staff, Step(staff, s, ops[0]), ops[1..], user);
      && History(staff, s, ops, user) == [StandingOf(s, user)] + later
      && History(staff, s, ops, user)[1..] == later
      && later[0] == StandingOf(Step(staff, s, ops[0]), user)
  {
  }

  lemma OnlyGrantedCons(x: Option<Standing>, h: seq<Option<Standing>>)
    ensures OnlyGranted([x] + h) <==> GrantedOrNone(x) && OnlyGranted(h)
    ensures h != [] && OnlyGranted(h) ==> GrantedOrNone(h[0])
  {
    if GrantedOrNone(x) && OnlyGranted(h) {
      forall y | y in [x] + h ensures GrantedOrNone(y) { assert y == x || y in h; }
    }
    if OnlyGranted([x] + h) {
      assert ([x] + h)[0] == x;
      forall y | y in h ensures GrantedOrNone(y) { assert y in [x] + h; }
    }
    if h != [] { assert h[0] in h; }
  }

  lemma {:induction false} RunInforms(staff: set<string>, s: State, ops: seq<Op>, user: string, only: bool)
    requires Informed(user, NoticesOf(s.notices, user), StandingOf(s, user), only)
    ensures var t := Run(staff, s, ops);
      Informed(user, NoticesOf(t.notices, user), StandingOf(t, user), only && OnlyGranted(History(staff, s, ops, user)))
    decreases ops
  {
    if ops != [] {
      var op, t := ops[0], Step(staff, s, ops[0]);
      StepNotices(staff, s, op, user);
      HistoryHead(staff, s, ops, user);
      OnlyGrantedCons(StandingOf(s, user), History(staff, t, ops[1..], user));
      if user !in s.rows && user in t.rows { NewRowsAreSilent(staff, s, op, user); }
      ChangeInforms(user, NoticesOf(s.notices, user), StandingOf(s, user), StandingOf(t, user), only);
      RunInforms(staff, t, ops[1..], user, only && GrantedOrNone(StandingOf(t, user)));
    }
  }

  ghost predicate AddedAsGranted(ops: seq<Op>, user: string) {
    exists op <- ops :: op.AddGranted? && op.user == user
  }

  /** A row that was never anything but granted was made so. */
  lemma {:induction false} OnlyGrantedIsAdded(staff: set<string>, s: State, ops: seq<Op>, user: string)
    requires user !in s.rows && user in Run(staff, s, ops).rows && OnlyGranted(History(staff, s, ops, user))
    ensures AddedAsGranted(ops, user)
    decreases ops
  {
    var t := Step(staff, s, ops[0]);
    HistoryHead(staff, s, ops, user);
    OnlyGrantedCons(StandingOf(s, user), History(staff, t, ops[1..], user));
    if user in t.rows {
      NewRowsAreSilent(staff, s, ops[0], user);
      assert GrantedOrNone(StandingOf(t, user));
      assert ops[0] in ops;
    } else {
      OnlyGrantedIsAdded(staff, t, ops[1..], user);
      var op :| op in ops[1..] && op.AddGranted? && op.user == user;
      assert op in ops;
    }
  }

  function EmptySite(now: int): State { State(map[], {}, [], 0, now) }

  /**
   * In every run from an empty site, the last message to a user is true where it matters.
   * A denied user was told so last, and a user who was told of a grant last is in the
   * creator group. A user in the group was told of the grant last, unless the row was
   * added as granted and has never been anything else: exactly then nothing was sent.
   * The admins have heard of every pending user.
   */
  lemma {:induction false} LastMessageIsTrue(staff: set<string>, now: int, ops: seq<Op>, user: string)
    ensures var s := Run(staff, EmptySite(now), ops); var mail := NoticesOf(s.notices, user);
            var history := History(staff, EmptySite(now), ops, user);
      && (StandingOf(s, user) == Some(Denied) ==> LastHeard(mail) == Some(Denied))
      && (LastHeard(mail) == Some(Granted) ==> user in s.group)
      && (user in s.group ==> LastHeard(mail) == if OnlyGranted(history) then None else Some(Granted))
      && (user in s.group && OnlyGranted(history) ==> mail == [] && AddedAsGranted(ops, user))
      && (StandingOf(s, user) == Some(Pending) ==> ToAdmins(user) in mail)
  {
    var start := EmptySite(now);
    RunInforms(staff, start, ops, user, true);
    GroupMatchesTable(staff, start, ops);
    if user in Run(staff, start, ops).group && OnlyGranted(History(staff, start, ops, user)) {
      OnlyGrantedIsAdded(staff, start, ops, user);
    }
  }

  /** The shortest run of this kind: a user who is added as granted is in the group and was told nothing. */
  lemma {:induction false} AddedAsGrantedIsSilent(staff: set<string>, now: int, caller: string, user: string)
    requires user !in staff
    ensures var s := Run(staff, EmptySite(now), [AddGranted(caller, user)]);
      user in s.group && NoticesOf(s.notices, user) == []
  {
    var ops, start := [AddGranted(caller, user)], EmptySite(now);
    var s := Step(staff, start, ops[0]);
    assert ops[1..] == [] && Run(staff, s, []) == s;
  }

  // ----------------------------------------------------------------- writes

  /** Whether an operation saves a row. */
  predicate Saves(staff: set<string>, s: State, op: Op) {
    match op
    case AddUnrequested(user) => user !in staff && user !in s.rows
    case AddGranted(_, user) => user !in staff && user !in s.rows
    case RequestAccess(user) => user in s.rows && s.rows[user].standing != Granted
    case AdminSave(_, user, _, _) => user in s.rows
    case Pass(_) => false
  }

  function SavesOf(staff: set<string>, s: State, ops: seq<Op>): nat
    decreases ops
  {
    if ops == [] then 0
    else (if Saves(staff, s, ops[0]) then 1 else 0) + SavesOf(staff, Step(staff, s, ops[0]), ops[1..])
  }

  predicate IsChange(before: Option<Standing>, after: Option<Standing>) {
    before.Some? && after != before
  }

  /** How often an existing row changed its standing. */
  function Changes(history: seq<Option<Standing>>): nat {
    if |history| < 2 then 0 else (if IsChange(history[0], history[1]) then 1 else 0) + Changes(history[1..])
  }

  function ChangesOf(staff: set<string>, s: State, ops: seq<Op>, users: seq<string>): nat {
    if users == [] then 0
    else Changes(History(staff, s, ops, users[0])) + ChangesOf(staff, s, ops, users[1..])
  }

  /** How many of the users' rows change from one state to another. */
  function Differences(s: State, t: State, users: seq<string>): nat {
    if users == [] then 0
    else (if IsChange(StandingOf(s, users[0]), StandingOf(t, users[0])) then 1 else 0) + Differences(s, t, users[1..])
  }

  lemma {:induction false} ChangesOfHead(staff: set<string>, s: State, ops: seq<Op>, users: seq<string>)
    requires ops != []
    ensures var t := Step(staff, s, ops[0]);
      ChangesOf(staff, s, ops, users) == Differences(s, t, users) + ChangesOf(staff, t, ops[1..], users)
  {
    if users != [] {
      HistoryHead(staff, s, ops, users[0]);
      ChangesOfHead(staff, s, ops, users[1..]);
    }
  }

  lemma {:induction false} NoChanges(staff: set<string>, s: State, users: seq<string>)
    ensures ChangesOf(staff, s, [], users) == 0
  {
    if users != [] { NoChanges(staff, s, users[1..]); }
  }

  /** One request changes the standing of its subject at most. */
  lemma {:induction false} OneDifference(staff: set<string>, s: State, op: Op, users: seq<string>)
    requires forall i, j | 0 <= i < j < |users| :: users[i] != users[j]
    ensures var t, subject := Step(staff, s, op), Subject(op);
      Differences(s, t, users) == if subject.Some? && subject.value in users
        && IsChange(StandingOf(s, subject.value), StandingOf(t, subject.value)) then 1 else 0
  {
    if users != [] {
      var rest := users[1..];
      StepStandings(staff, s, op, users[0]);
      OneDifference(staff, s, op, rest);
      assert users == [users[0]] + rest && users[0] !in rest;
    }
  }

  lemma StepWrites(staff: set<string>, s: State, op: Op)
    ensures var t, subject := Step(staff, s, op), Subject(op);
      t.writes == s.writes + (if Saves(staff, s, op) then 1 else 0)
        + if subject.Some? && IsChange(StandingOf(s, subject.value), StandingOf(t, subject.value)) then 1 else 0
  {
  }

  /**
   * In every run the table is written once for each save that was asked for, and once
   * more, from inside that save, for each change of an existing row's standing. The
   * users listed are all whom the run is about, each once.
   */
  lemma {:induction false} NestedSavesAreChanges(staff: set<string>, s: State, ops: seq<Op>, users: seq<string>)
    requires forall i, j | 0 <= i < j < |users| :: users[i] != users[j]
    requires forall op <- ops :: Subject(op).Some? ==> Subject(op).value in users
    ensures Run(staff, s, ops).writes == s.writes + SavesOf(staff, s, ops) + ChangesOf(staff, s, ops, users)
    decreases ops
  {
    if ops == [] {
      NoChanges(staff, s, users);
    } else {
      assert ops[0] in ops;
      StepWrites(staff, s, ops[0]);
      OneDifference(staff, s, ops[0], users);
      ChangesOfHead(staff, s, ops, users);
      NestedSavesAreChanges(staff, Step(staff, s, ops[0]), ops[1..], users);
    }
  }

  // ------------------------------------------------------------------ dates

  /** The time of the last change of the user's standing in a run, or the date from before it. */
  function LastChange(staff: set<string>, s: State, ops: seq<Op>, user: string, before: int): int
    decreases ops
  {
    if ops == [] then before
    else
      var t := Step(staff, s, ops[0]);
      LastChange(staff, t, ops[1..], user, if StandingOf(t, user) != StandingOf(s, user) then s.now else before)
  }

  /** The date of a row is the time at which its standing last changed, or at which it was made. */
  lemma {:induction false} DatedByLastChange(staff: set<string>, s: State, ops: seq<Op>, user: string, before: int)
    requires user in s.rows ==> s.rows[user].changedAt == before
    ensures var t := Run(staff, s, ops);
      user in t.rows ==> t.rows[user].changedAt == LastChange(staff, s, ops, user, before)
    decreases ops
  {
    if ops != [] {
      var t := Step(staff, s, ops[0]);
      var next := if StandingOf(t, user) != StandingOf(s, user) then s.now else before;
      StepDates(staff, s, ops[0], user);
      DatedByLastChange(staff, t, ops[1..], user, next);
    }
  }

  lemma StepDates(staff: set<string>, s: State, op: Op, user: string)
    ensures var t := Step(staff, s, op); user in t.rows ==>
      t.rows[user].changedAt == if StandingOf(t, user) != StandingOf(s, user) then s.now else s.rows[user].changedAt
  {
  }
}
