/** Course updates: a list addressed by position, whose items are only ever marked deleted. */
module CourseUpdates {
  import opened Common
  import opened Decimal

  datatype Status = Visible | Deleted

  datatype Update = Update(id: nat, date: string, content: string, status: Status)

  /** What the client sees of an update. */
  datatype Shown = Shown(id: nat, date: string, content: string)

  datatype State = State(items: seq<Update>, data: string)

  function ShownUpdate(u: Update): Shown { Shown(u.id, u.date, u.content) }

  // --------------------------------------------------------------------- index

  function TrailingDigits(s: string): (d: string)
    ensures |d| <= |s| && AllDigits(d)
  {
    if s == "" || !IsDigit(s[|s| - 1]) then ""
    else TrailingDigits(s[..|s| - 1]) + [s[|s| - 1]]
  }

  /** The number at the end of an id, or just before a final newline; zero if there is none. */
  function GetIndex(passedId: string): nat {
    var s := if passedId != "" && passedId[|passedId| - 1] == '\n' then passedId[..|passedId| - 1] else passedId;
    Value(TrailingDigits(s))
  }

  predicate EndsInDigit(s: string) { s != "" && IsDigit(s[|s| - 1]) }

  lemma {:induction false} TrailingDigitsOf(prefix: string, digits: string)
    requires !EndsInDigit(prefix) && AllDigits(digits)
    ensures TrailingDigits(prefix + digits) == digits
  {
    var s := prefix + digits;
    if digits == "" {
      assert s == prefix;
    } else {
      var front := digits[..|digits| - 1];
      assert s[..|s| - 1] == prefix + front;
      TrailingDigitsOf(prefix, front);
      assert digits == front + [digits[|digits| - 1]];
    }
  }

  lemma {:induction false} NumberIsRead(prefix: string, id: nat)
    requires !EndsInDigit(prefix)
    ensures GetIndex(prefix + Numeral(id)) == id
  {
    var n := Numeral(id);
    assert (prefix + n)[|prefix + n| - 1] == n[|n| - 1] && IsDigit(n[|n| - 1]);
    TrailingDigitsOf(prefix, n);
    ValueOfNumeral(id);
  }

  lemma {:induction false} NewlineIsIgnored(s: string)
    requires s == "" || s[|s| - 1] != '\n'
    ensures GetIndex(s + "\n") == GetIndex(s)
  {
    assert (s + "\n")[..|s|] == s;
  }

  lemma {:induction false} NoNumberIsZero(s: string)
    requires !EndsInDigit(s) && (s == "" || s[|s| - 1] != '\n')
    ensures GetIndex(s) == 0
  {
    assert TrailingDigits(s) == "";
  }

  /**
   * Any prefix that does not end in a digit, followed by a number, is read as that number,
   * also with a newline at its end; without a number at its end it is read as zero.
   */
  lemma {:induction false} IndexOfId(prefix: string, id: nat)
    requires !EndsInDigit(prefix)
    ensures GetIndex(prefix + Numeral(id)) == id
    ensures GetIndex(prefix + Numeral(id) + "\n") == id
    ensures (prefix == "" || prefix[|prefix| - 1] != '\n') ==> GetIndex(prefix) == 0
  {
    var n := Numeral(id);
    NumberIsRead(prefix, id);
    assert (prefix + n)[|prefix + n| - 1] == n[|n| - 1] && IsDigit(n[|n| - 1]);
    NewlineIsIgnored(prefix + n);
    if prefix == "" || prefix[|prefix| - 1] != '\n' { NoNumberIsZero(prefix); }
  }

  // ----------------------------------------------------------------- rendering

  /** The visible updates, the last stored one first. */
  function VisibleNewestFirst(items: seq<Update>): seq<Update> {
    if items == [] then []
    else
      var last := items[|items| - 1];
      (if last.status != Deleted then [last] else []) + VisibleNewestFirst(items[..|items| - 1])
  }

  function FormatArticle(date: string, content: string): string {
    "<article><h2>" + date + "</h2>" + content + "</article>"
  }

  function Article(u: Update): string { FormatArticle(u.date, u.content) }

  function Articles(updates: seq<Update>): string {
    if updates == [] then "" else Article(updates[0]) + Articles(updates[1..])
  }

  function Render(items: seq<Update>): string {
    "<section>" + Articles(VisibleNewestFirst(items)) + "</section>"
  }

  function Concat(parts: seq<string>): string {
    if parts == [] then "" else parts[0] + Concat(parts[1..])
  }

  lemma {:induction false} ConcatSnoc(parts: seq<string>, p: string)
    ensures Concat(parts + [p]) == Concat(parts) + p
  {
    if parts == [] {
      assert [] + [p] == [p];
    } else {
      assert (parts + [p])[1..] == parts[1..] + [p];
      ConcatSnoc(parts[1..], p);
    }
  }

  lemma {:induction false} ArticlesCons(u: Update, more: seq<Update>)
    ensures Articles([u] + more) == Article(u) + Articles(more)
  {
    assert ([u] + more)[1..] == more;
  }

  /** Moving the last of the first i + 1 updates over to the rendered parts. */
  lemma HtmlStep(parts: seq<string>, items: seq<Update>, i: nat)
    requires i < |items|
    ensures var next := if items[i].status != Deleted then parts + [Article(items[i])] else parts;
      Concat(next) + Articles(VisibleNewestFirst(items[..i]))
        == Concat(parts) + Articles(VisibleNewestFirst(items[..i + 1]))
  {
    var rest := VisibleNewestFirst(items[..i]);
    assert items[..i + 1][..i] == items[..i];
    ConcatSnoc(parts, Article(items[i]));
    ArticlesCons(items[i], rest);
    assert VisibleNewestFirst(items[..i + 1]) == if items[i].status != Deleted then [items[i]] + rest else rest;
    assert Concat(parts) + Article(items[i]) + Articles(rest) == Concat(parts) + (Article(items[i]) + Articles(rest));
  }

  method GetHtml(items: seq<Update>) returns (html: string)
    ensures html == Render(items)
  {
    var listItems: seq<string> := [];
    ghost var all := Articles(VisibleNewestFirst(items));
    var i := |items|;
    assert items[..i] == items && Concat([]) + all == all;
    while i > 0
      invariant 0 <= i <= |items| && Concat(listItems) + Articles(VisibleNewestFirst(items[..i])) == all
    {
      i := i - 1;
      HtmlStep(listItems, items, i);
      if items[i].status != Deleted { listItems := listItems + [FormatArticle(items[i].date, items[i].content)]; }
    }
    assert Concat(listItems) + "" == Concat(listItems);
    html := "<section>" + Concat(listItems) + "</section>";
  }

  /**
   * The text that is rendered: one more visible update puts its article in front of the
   * articles that were there, and a deleted one changes nothing.
   */
  lemma RenderedText(items: seq<Update>, u: Update)
    ensures Render([]) == "<section></section>"
    ensures u.status == Deleted ==> Render(items + [u]) == Render(items)
    ensures u.status == Visible ==> exists body ::
      && Render(items) == "<section>" + body
      && Render(items + [u]) == "<section>" + ("<article><h2>" + u.date + "</h2>" + u.content + "</article>" + body)
  {
    var v := VisibleNewestFirst(items);
    assert (items + [u])[..|items|] == items && (items + [u])[|items|] == u;
    assert [] + v == v;
    assert "<section>" + "" + "</section>" == "<section></section>";
    if u.status == Visible {
      var article := "<article><h2>" + u.date + "</h2>" + u.content + "</article>";
      var body := Articles(v) + "</section>";
      ArticlesCons(u, v);
      Reassociate("<section>", Articles(v), "</section>");
      Reassociate("<section>", article + Articles(v), "</section>");
      Reassociate(article, Articles(v), "</section>");
      assert Render(items) == "<section>" + body;
      assert Render(items + [u]) == "<section>" + (article + body);
    }
  }

  lemma Reassociate(a: string, b: string, c: string)
    ensures a + b + c == a + (b + c)
  {
  }

  /** Exactly the undeleted updates are rendered, once each, by descending position. */
  lemma {:induction false} RenderedInOrder(items: seq<Update>)
    requires forall i | 0 <= i < |items| :: items[i].id == i + 1
    ensures var v := VisibleNewestFirst(items);
      && (forall u :: u in v <==> u in items && u.status != Deleted)
      && forall i, j | 0 <= i < j < |v| :: v[i].id > v[j].id
  {
    if items != [] {
      var front, last := items[..|items| - 1], items[|items| - 1];
      RenderedInOrder(front);
      assert forall u :: u in items <==> u in front || u == last;
    }
  }

  // ---------------------------------------------------------------- operations

  datatype Op =
    | Add(date: string, content: string)
    | Edit(passedId: string, date: string, content: string)
    | Delete(deletedId: string)

  predicate Selects(s: State, passedId: string) { 0 < GetIndex(passedId) <= |s.items| }

  function Saved(items: seq<Update>): State { State(items, Render(items)) }

  /** None is a bad request, which changes nothing. */
  function Step(s: State, op: Op): Option<State> {
    match op
    case Add(date, content) => Some(Saved(s.items + [Update(|s.items| + 1, date, content, Visible)]))
    case Edit(id, date, content) =>
      if !Selects(s, id) then None
      else
        var k := GetIndex(id) - 1;
        Some(Saved(s.items[k := s.items[k].(date := date, content := content)]))
    case Delete(id) =>
      if !Selects(s, id) then None
      else
        var k := GetIndex(id) - 1;
        Some(Saved(s.items[k := s.items[k].(status := Deleted)]))
  }

  /** The position an operation writes. */
  function Slot(s: State, op: Op): (k: nat)
    requires Step(s, op).Some?
    ensures k < |Step(s, op).value.items|
  {
    match op
    case Add(_, _) => |s.items|
    case Edit(id, _, _) => GetIndex(id) - 1
    case Delete(id) => GetIndex(id) - 1
  }

  function Next(s: State, op: Op): State {
    var t := Step(s, op);
    if t.None? then s else t.value
  }

  function ShownVisible(items: seq<Update>): seq<Shown> {
    if items == [] then []
    else (if items[0].status != Deleted then [ShownUpdate(items[0])] else []) + ShownVisible(items[1..])
  }

  lemma {:induction false} ReverseSnoc<T>(s: seq<T>, x: T)
    ensures Reverse(s + [x]) == [x] + Reverse(s)
  {
  }

  lemma {:induction false} ShownCons(u: Update, more: seq<Update>)
    ensures ShownVisible([u] + more) == (if u.status != Deleted then [ShownUpdate(u)] else []) + ShownVisible(more)
  {
    assert ([u] + more)[1..] == more;
  }

  /** What the client sees of a list of updates. */
  function AllShown(updates: seq<Update>): (r: seq<Shown>)
    ensures |r| == |updates|
    ensures forall i | 0 <= i < |r| ::
      r[i].id == updates[i].id && r[i].date == updates[i].date && r[i].content == updates[i].content
  {
    seq(|updates|, i requires 0 <= i < |updates| => ShownUpdate(updates[i]))
  }

  /** The list a client reads is what is rendered, in the same order. */
  lemma {:induction false} ReadsWhatIsRendered(items: seq<Update>)
    ensures ShownVisible(Reverse(items)) == AllShown(VisibleNewestFirst(items))
  {
    if items != [] {
      var front, last := items[..|items| - 1], items[|items| - 1];
      assert items == front + [last];
      ReadsWhatIsRendered(front);
      ReverseSnoc(front, last);
      ShownCons(last, Reverse(front));
    }
  }

  /** A client reads one update, finds it deleted, or reads all visible ones. */
  datatype Reading = One(update: Shown) | Missing | Many(updates: seq<Shown>)

  function Read(s: State, providedId: string): Reading {
    if !Selects(s, providedId) then Many(ShownVisible(Reverse(s.items)))
    else
      var u := s.items[GetIndex(providedId) - 1];
      if u.status != Deleted then One(ShownUpdate(u)) else Missing
  }

  class CourseUpdateList {
    var items: seq<Update>
    var data: string

    constructor (data: string)
      ensures Contents() == State([], data)
    {
      items, this.data := [], data;
    }

    function Contents(): State
      reads this
    {
      State(items, data)
    }

    /** Copies of the updates, newest first. */
    method GetCourseUpdateItems() returns (r: seq<Update>)
      ensures r == Reverse(items)
    {
      r := Reverse(items);
    }

    method GetCourseUpdates(providedId: string) returns (r: Reading)
      ensures r == Read(Contents(), providedId)
    {
      var index := GetIndex(providedId);
      if items != [] && 0 < index <= |items| {
        var u := items[index - 1];
        return if u.status != Deleted then One(ShownUpdate(u)) else Missing;
      }
      return Many(ShownVisible(Reverse(items)));
    }

    method SaveCourseUpdateItems(updates: seq<Update>)
      modifies this
      ensures Contents() == Saved(updates)
    {
      items := updates;
      data := GetHtml(updates);
    }

    /** Adds an update without an id, edits the one with the id, or fails. */
    method UpdateCourseUpdates(date: string, content: string, passedId: Option<string>) returns (r: Option<Shown>)
      modifies this
      ensures var op := if passedId.Some? then Edit(passedId.value, date, content) else Add(date, content);
        var t := Step(old(Contents()), op);
        && (t.None? ==> r.None? && Contents() == old(Contents()))
        && (t.Some? ==> Contents() == t.value && r == Some(ShownUpdate(t.value.items[Slot(old(Contents()), op)])))
        && (t.Some? ==> r.value.date == date && r.value.content == content)
    {
      var newest := GetCourseUpdateItems();
      var updates := Reverse(newest);
      assert updates == items;
      var update: Update;
      if passedId.Some? {
        var index := GetIndex(passedId.value);
        if !(0 < index <= |updates|) { return None; }
        update := updates[index - 1].(date := date, content := content);
        updates := updates[index - 1 := update];
      } else {
        update := Update(|updates| + 1, date, content, Visible);
        updates := updates + [update];
      }
      SaveCourseUpdateItems(updates);
      return Some(ShownUpdate(update));
    }

    /** Marks the update with the id as deleted and returns what is left to see, oldest first. */
    method DeleteCourseUpdate(passedId: string) returns (r: Option<seq<Shown>>)
      modifies this
      ensures var t := Step(old(Contents()), Delete(passedId));
        && (t.None? ==> r.None? && Contents() == old(Contents()))
        && (t.Some? ==> Contents() == t.value && r == Some(ShownVisible(items)))
    {
      if passedId == "" {
        assert TrailingDigits("") == "";
        return None;
      }
      var newest := GetCourseUpdateItems();
      var updates := Reverse(newest);
      assert updates == items;
      var index := GetIndex(passedId);
      if !(0 < index <= |updates|) { return None; }
      updates := updates[index - 1 := updates[index - 1].(status := Deleted)];
      SaveCourseUpdateItems(updates);
      return Some(ShownVisible(updates));
    }
  }

  // ----------------------------------------------------------------------- runs

  function Run(s: State, ops: seq<Op>): State
    decreases ops
  {
    if ops == [] then s else Run(Next(s, ops[0]), ops[1..])
  }

  ghost predicate Valid(s: State) {
    && (forall i | 0 <= i < |s.items| :: s.items[i].id == i + 1)
    && (s.items != [] ==> s.data == Render(s.items))
  }

  /** Positions persist, and what is deleted stays deleted. */
  ghost predicate Grown(s: State, t: State) {
    && |s.items| <= |t.items|
    && forall i | 0 <= i < |s.items| ::
         t.items[i].id == s.items[i].id && (s.items[i].status == Deleted ==> t.items[i].status == Deleted)
  }

  /** `b` is `a` with item `k` replaced, or put at the end, with its own position as its id. */
  ghost predicate Puts(a: seq<Update>, b: seq<Update>, k: nat, u: Update) {
    k <= |a| && u.id == k + 1 && b == if k < |a| then a[k := u] else a + [u]
  }

  lemma PutKeepsPlaces(a: seq<Update>, b: seq<Update>, k: nat, u: Update, data: string)
    requires (forall i | 0 <= i < |a| :: a[i].id == i + 1) && Puts(a, b, k, u)
    requires k < |a| && a[k].status == Deleted ==> u.status == Deleted
    ensures Valid(Saved(b)) && Grown(State(a, data), Saved(b))
  {
  }

  lemma StepGrows(s: State, op: Op)
    requires Valid(s)
    ensures Valid(Next(s, op)) && Grown(s, Next(s, op))
  {
    match op
    case Add(date, content) =>
      var u := Update(|s.items| + 1, date, content, Visible);
      PutKeepsPlaces(s.items, s.items + [u], |s.items|, u, s.data);
    case Edit(id, date, content) =>
      if Selects(s, id) {
        var k := GetIndex(id) - 1;
        var u := s.items[k].(date := date, content := content);
        PutKeepsPlaces(s.items, s.items[k := u], k, u, s.data);
      }
    case Delete(id) =>
      if Selects(s, id) {
        var k := GetIndex(id) - 1;
        var u := s.items[k].(status := Deleted);
        PutKeepsPlaces(s.items, s.items[k := u], k, u, s.data);
      }
  }

  /**
   * In every run from a valid list, an item keeps its position and has it as its id, the
   * list never shrinks, no deleted item comes back, and the stored text renders the items.
   */
  lemma {:induction false} RunsOnlyGrow(s: State, ops: seq<Op>)
    requires Valid(s)
    ensures Valid(Run(s, ops)) && Grown(s, Run(s, ops))
    decreases ops
  {
    if ops != [] {
      StepGrows(s, ops[0]);
      RunsOnlyGrow(Next(s, ops[0]), ops[1..]);
    }
  }

  datatype Written = Written(date: string, content: string)

  /** The date and content that an operation writes at position `k`. */
  function WrittenBy(s: State, op: Op, k: nat): Option<Written> {
    match op
    case Add(date, content) => if k == |s.items| then Some(Written(date, content)) else None
    case Edit(id, date, content) =>
      if Selects(s, id) && GetIndex(id) == k + 1 then Some(Written(date, content)) else None
    case Delete(_) => None
  }

  predicate Deletes(s: State, op: Op, k: nat) {
    op.Delete? && Selects(s, op.deletedId) && GetIndex(op.deletedId) == k + 1
  }

  /** What the last edit of position `k` in a run wrote, or else its add, or else `before`. */
  function LastWritten(s: State, ops: seq<Op>, k: nat, before: Option<Written>): Option<Written>
    decreases ops
  {
    if ops == [] then before
    else
      var now := WrittenBy(s, ops[0], k);
      LastWritten(Next(s, ops[0]), ops[1..], k, if now.Some? then now else before)
  }

  predicate EverDeleted(s: State, ops: seq<Op>, k: nat)
    decreases ops
  {
    ops != [] && (Deletes(s, ops[0], k) || EverDeleted(Next(s, ops[0]), ops[1..], k))
  }

  /** What the history says of position `k`: nothing if it is not there yet. */
  ghost predicate Holds(s: State, k: nat, text: Option<Written>, deleted: bool) {
    if k < |s.items|
    then text == Some(Written(s.items[k].date, s.items[k].content)) && (s.items[k].status == Deleted <==> deleted)
    else text == None && !deleted
  }

  lemma StepHolds(s: State, op: Op, k: nat, text: Option<Written>, deleted: bool)
    requires Holds(s, k, text, deleted)
    ensures var now := WrittenBy(s, op, k);
      Holds(Next(s, op), k, if now.Some? then now else text, deleted || Deletes(s, op, k))
  {
  }

  lemma {:induction false} RunHolds(s: State, ops: seq<Op>, k: nat, text: Option<Written>, deleted: bool)
    requires Holds(s, k, text, deleted)
    ensures Holds(Run(s, ops), k, LastWritten(s, ops, k, text), deleted || EverDeleted(s, ops, k))
    decreases ops
  {
    if ops != [] {
      var now := WrittenBy(s, ops[0], k);
      StepHolds(s, ops[0], k, text, deleted);
      RunHolds(Next(s, ops[0]), ops[1..], k, if now.Some? then now else text, deleted || Deletes(s, ops[0], k));
    }
  }

  /**
   * After any run from an empty list, an item holds the date and content of the last edit
   * that selected it, or else of its add, and is deleted exactly if some delete selected
   * it; and there is an item at a position exactly if something was ever written there.
   */
  lemma {:induction false} ItemsHoldLastWritten(data: string, ops: seq<Op>, k: nat)
    ensures var start := State([], data); var t := Run(start, ops); var text := LastWritten(start, ops, k, None);
      && (k < |t.items| <==> text.Some?)
      && (k < |t.items| ==>
            && t.items[k] == Update(k + 1, text.value.date, text.value.content, t.items[k].status)
            && (t.items[k].status == Deleted <==> EverDeleted(start, ops, k)))
  {
    RunHolds(State([], data), ops, k, None, false);
    RunsOnlyGrow(State([], data), ops);
  }

  /** Reading a deleted item by its id finds nothing. */
  lemma {:induction false} DeletedIsMissing(s: State, k: nat)
    requires k < |s.items| && s.items[k].status == Deleted
    ensures Read(s, Numeral(k + 1)) == Missing
  {
    NumberIsRead("", k + 1);
    assert "" + Numeral(k + 1) == Numeral(k + 1);
  }

  lemma {:induction false} SelectedIsRead(s: State, id: string, k: nat)
    requires k < |s.items| && s.items[k].status == Visible && GetIndex(id) == k + 1
    ensures Read(s, id) == One(Shown(s.items[k].id, s.items[k].date, s.items[k].content))
  {
  }

  /** Reading an item that is not deleted by its id gives its own date and content. */
  lemma {:induction false} VisibleIsRead(s: State, prefix: string, k: nat)
    requires Valid(s) && k < |s.items| && s.items[k].status == Visible && !EndsInDigit(prefix)
    ensures Read(s, prefix + Numeral(k + 1)) == One(Shown(k + 1, s.items[k].date, s.items[k].content))
  {
    NumberIsRead(prefix, k + 1);
    SelectedIsRead(s, prefix + Numeral(k + 1), k);
  }

  lemma DeletedIsNotRendered(s: State, k: nat)
    requires Valid(s) && k < |s.items| && s.items[k].status == Deleted
    ensures s.data == Render(s.items) && forall u <- VisibleNewestFirst(s.items) :: u.id != k + 1
  {
    RenderedInOrder(s.items);
    forall u | u in VisibleNewestFirst(s.items) ensures u.id != k + 1 {
      var i :| 0 <= i < |s.items| && s.items[i] == u;
    }
  }

  /** From an empty list: whatever happens after an item is deleted, it is never rendered again. */
  lemma {:induction false} DeletedStaysHidden(data: string, before: seq<Op>, after: seq<Op>, k: nat)
    requires k < |Run(State([], data), before).items| && Run(State([], data), before).items[k].status == Deleted
    ensures var t := Run(Run(State([], data), before), after);
      && k < |t.items| && t.data == Render(t.items)
      && t.items[k].status == Deleted
      && forall u <- VisibleNewestFirst(t.items) :: u.id != k + 1
  {
    var s := Run(State([], data), before);
    RunsOnlyGrow(State([], data), before);
    RunsOnlyGrow(s, after);
    DeletedIsNotRendered(Run(s, after), k);
  }

  /** An id made of any prefix not ending in a digit and an item's own id selects that item. */
  lemma IdSelectsItem(s: State, prefix: string, k: nat, date: string, content: string)
    requires Valid(s) && k < |s.items| && !EndsInDigit(prefix)
    ensures var id := prefix + Numeral(s.items[k].id);
      && Step(s, Edit(id, date, content)) == Some(Saved(s.items[k := s.items[k].(date := date, content := content)]))
      && Step(s, Delete(id)) == Some(Saved(s.items[k := s.items[k].(status := Deleted)]))
  {
    NumberIsRead(prefix, s.items[k].id);
  }
}
