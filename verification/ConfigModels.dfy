/**
 * Database-backed configuration: an append-only table of which the newest row per key is
 * current, behind a cache that expires and is cleared by saving. Operations are atomic
 * here; module ConfigRaces interleaves their steps.
 */
module ConfigModels {
  import opened Common

  datatype Row = Row(id: nat, changeDate: int, key: seq<string>, changedBy: string, values: map<string, string>)

  /** `current` returns a saved row, or a fresh unsaved one that only has its key. */
  datatype Entry = Saved(row: Row) | Unsaved(key: seq<string>)

  datatype Cached = Current(entry: Entry, expires: int) | KeyList(keys: seq<seq<string>>, expires: int)

  datatype Model = Model(name: string, keyFields: seq<string>, timeout: int)

  datatype State = State(table: seq<Row>, cache: map<string, Cached>, now: int)

  // ------------------------------------------------------------------ cache keys

  function Join(parts: seq<string>): string {
    if parts == [] then ""
    else if |parts| == 1 then parts[0]
    else parts[0] + "," + Join(parts[1..])
  }

  function CurrentKey(m: Model, key: seq<string>): string {
    "configuration/" + m.name + if m.keyFields != [] then "/current/" + Join(key) else "/current"
  }

  function KeyValuesKey(m: Model): string {
    "configuration/" + m.name + "/key_values/" + Join(m.keyFields)
  }

  /** A key of the right length in which no comma can be taken for one between two parts. */
  predicate Separable(m: Model, key: seq<string>) {
    |key| == |m.keyFields| && (|key| > 1 ==> CommaFree(key))
  }

  predicate CommaFree(parts: seq<string>) {
    forall part <- parts :: ',' !in part
  }

  function Commas(s: string): nat { multiset(s)[','] }

  /** The joined text has a comma between any two parts, and more exactly when a part has one. */
  lemma {:induction false} JoinCommas(parts: seq<string>)
    requires parts != []
    ensures Commas(Join(parts)) >= |parts| - 1
    ensures Commas(Join(parts)) == |parts| - 1 <==> CommaFree(parts)
  {
    var first := parts[0];
    assert ',' in first <==> Commas(first) > 0;
    if |parts| > 1 {
      var rest := parts[1..];
      JoinCommas(rest);
      assert multiset(first + "," + Join(rest)) == multiset(first) + multiset(",") + multiset(Join(rest));
      assert CommaFree(parts) <==> ',' !in first && CommaFree(rest) by {
        assert parts == [first] + rest;
      }
    }
  }

  lemma {:induction false} JoinIsInjective(a: seq<string>, b: seq<string>)
    requires |a| == |b| && Join(a) == Join(b)
    requires |a| > 1 ==> CommaFree(a) && CommaFree(b)
    ensures a == b
  {
    if |a| == 1 {
    } else if |a| > 1 {
      HeadEndsAtComma(a[0], Join(a[1..]), b[0], Join(b[1..]));
      HeadEndsAtComma(b[0], Join(b[1..]), a[0], Join(a[1..]));
      var s := Join(a);
      assert a[0] == s[..|a[0]|] && b[0] == s[..|b[0]|];
      assert Join(a[1..]) == s[|a[0]| + 1..] == Join(b[1..]);
      JoinIsInjective(a[1..], b[1..]);
    }
  }

  lemma HeadEndsAtComma(x: string, restX: string, y: string, restY: string)
    requires x + "," + restX == y + "," + restY && ',' !in y
    ensures |y| <= |x|
  {
    var s := y + "," + restY;
    assert forall i | 0 <= i < |y| :: s[i] == y[i] && y[i] in y;
    assert (x + "," + restX)[|x|] == ',';
  }

  lemma {:induction false} CurrentKeyEndsInJoin(m: Model, key: seq<string>)
    ensures CurrentKey(m, key) != KeyValuesKey(m)
    ensures m.keyFields != [] ==> CurrentKey(m, key)[|"configuration/" + m.name| + 9..] == Join(key)
  {
    var n := |"configuration/" + m.name|;
    assert CurrentKey(m, key)[n..][..2] == "/c";
    assert KeyValuesKey(m)[n..][..2] == "/k";
  }

  /** No other key of the model, with commas or without, has the cache key of a separable one. */
  lemma CacheKeysDiffer(m: Model, a: seq<string>, b: seq<string>)
    requires Separable(m, a) && |b| == |a|
    ensures CurrentKey(m, a) == CurrentKey(m, b) ==> a == b
    ensures CurrentKey(m, a) != KeyValuesKey(m)
  {
    CurrentKeyEndsInJoin(m, a);
    if m.keyFields != [] && CurrentKey(m, a) == CurrentKey(m, b) {
      CurrentKeyEndsInJoin(m, b);
      JoinCommas(a);
      JoinCommas(b);
      JoinIsInjective(a, b);
    }
  }

  lemma {:induction false} JoinPair(x: string, y: string, more: seq<string>)
    ensures Join([x, y] + more) == x + "," + (if more == [] then y else y + "," + Join(more))
  {
    var parts := [x, y] + more;
    assert parts[1..] == [y] + more;
    assert ([y] + more)[1..] == more;
  }

  /** A comma inside a part trades places with one between two parts, and the text stays the same. */
  lemma {:induction false} TwinKey(key: seq<string>) returns (twin: seq<string>)
    requires |key| > 1 && !CommaFree(key)
    ensures |twin| == |key| && twin != key && Join(twin) == Join(key)
  {
    var x, rest := key[0], key[1..];
    if ',' in x {
      twin := CommaMovedOut(key);
    } else if |key| == 2 {
      twin := CommaMovedIn(key);
    } else {
      assert key == [x] + rest;
      var t := TwinKey(rest);
      twin := [x] + t;
      assert twin[1..] == t;
    }
  }

  lemma CommaMovedOut(key: seq<string>) returns (twin: seq<string>)
    requires |key| > 1 && ',' in key[0]
    ensures |twin| == |key| && twin != key && Join(twin) == Join(key)
  {
    var x, y, more := key[0], key[1], key[2..];
    var i :| 0 <= i < |x| && x[i] == ',';
    var z := x[i + 1..] + "," + y;
    twin := [x[..i], z] + more;
    assert key == [x, y] + more;
    JoinPair(x, y, more);
    JoinPair(x[..i], z, more);
    assert x == x[..i] + "," + x[i + 1..];
  }

  lemma CommaMovedIn(key: seq<string>) returns (twin: seq<string>)
    requires |key| == 2 && ',' in key[1]
    ensures |twin| == |key| && twin != key && Join(twin) == Join(key)
  {
    var x, y := key[0], key[1];
    var i :| 0 <= i < |y| && y[i] == ',';
    var z := x + "," + y[..i];
    twin := [z, y[i + 1..]];
    assert key == [x, y] + [] && twin == [z, y[i + 1..]] + [];
    JoinPair(x, y, []);
    JoinPair(z, y[i + 1..], []);
    assert y == y[..i] + "," + y[i + 1..];
  }

  /** A key has a cache key of its own exactly when it is separable. */
  lemma SeparableIsUnshared(m: Model, key: seq<string>)
    requires |key| == |m.keyFields|
    ensures Separable(m, key) <==>
      forall other: seq<string> | |other| == |key| && CurrentKey(m, other) == CurrentKey(m, key) :: other == key
  {
    if Separable(m, key) {
      forall other: seq<string> | |other| == |key| && CurrentKey(m, other) == CurrentKey(m, key)
        ensures other == key
      {
        CacheKeysDiffer(m, key, other);
      }
    } else {
      var twin := TwinKey(key);
      assert CurrentKey(m, twin) == CurrentKey(m, key);
    }
  }

  // ---------------------------------------------------------------------- queries

  /** The row of a key with the greatest change date, the later insertion on a tie. */
  function Latest(table: seq<Row>, key: seq<string>): Option<Row> {
    if table == [] then None
    else
      var last := table[|table| - 1];
      var best := Latest(table[..|table| - 1], key);
      if last.key == key && (best.None? || best.value.changeDate <= last.changeDate) then Some(last) else best
  }

  function Uncached(table: seq<Row>, key: seq<string>): Entry {
    var r := Latest(table, key);
    if r.Some? then Saved(r.value) else Unsaved(key)
  }

  /** The distinct keys of the table, each once. */
  function DistinctKeys(table: seq<Row>): (keys: seq<seq<string>>)
    ensures forall k :: k in keys <==> exists row <- table :: row.key == k
    ensures forall i, j | 0 <= i < j < |keys| :: keys[i] != keys[j]
  {
    if table == [] then []
    else
      var last := table[|table| - 1];
      var keys := DistinctKeys(table[..|table| - 1]);
      assert forall row :: row in table <==> row == last || row in table[..|table| - 1];
      if last.key in keys then keys else keys + [last.key]
  }

  function MaxId(table: seq<Row>, key: seq<string>): nat {
    if table == [] then 0
    else
      var rest := MaxId(table[..|table| - 1], key);
      var last := table[|table| - 1];
      if last.key == key && rest < last.id then last.id else rest
  }

  /** The rows whose id is the greatest of their key. */
  function CurrentSet(table: seq<Row>): set<Row> {
    set row <- table | row.id == MaxId(table, row.key)
  }

  /** Ids, from 1, and dates both grow along the table. */
  ghost predicate Grows(table: seq<Row>) {
    && (forall i | 0 <= i < |table| :: table[i].id > 0)
    && (forall i, j | 0 <= i < j < |table| :: table[i].id < table[j].id && table[i].changeDate < table[j].changeDate)
  }

  /** `r` is the row of the key that is newest both by date and by id. */
  ghost predicate Newest(table: seq<Row>, key: seq<string>, r: Row) {
    && r in table && r.key == key
    && forall row <- table | row.key == key && row != r :: row.changeDate < r.changeDate && row.id < r.id
  }

  lemma {:induction false} LatestIsLast(table: seq<Row>, key: seq<string>)
    requires Grows(table)
    ensures match Latest(table, key)
      case None => MaxId(table, key) == 0 && forall row <- table :: row.key != key
      case Some(r) => Newest(table, key, r) && r.id == MaxId(table, key)
  {
    if table != [] {
      var front, last := table[..|table| - 1], table[|table| - 1];
      LatestIsLast(front, key);
      SplitLast(table);
    }
  }

  lemma SplitLast(table: seq<Row>)
    requires Grows(table) && table != []
    ensures var front, last := table[..|table| - 1], table[|table| - 1];
      && Grows(front)
      && (forall row :: row in table <==> row in front || row == last)
      && (forall row <- front :: 0 < row.id < last.id && row.changeDate < last.changeDate)
  {
    var front, last := table[..|table| - 1], table[|table| - 1];
    assert table == front + [last];
  }

  /**
   * "Active" by highest id agrees with "current" by latest date: the current set holds
   * exactly one row for each key of the table, the row that `current` returns.
   */
  lemma {:induction false} ActiveIsCurrent(table: seq<Row>)
    requires Grows(table)
    ensures forall row <- table :: row in CurrentSet(table) <==> Uncached(table, row.key) == Saved(row)
    ensures forall key <- DistinctKeys(table) :: exists row <- CurrentSet(table) :: row.key == key
    ensures forall r, s | r in CurrentSet(table) && s in CurrentSet(table) && r.key == s.key :: r == s
  {
    forall row | row in table
      ensures row in CurrentSet(table) <==> Uncached(table, row.key) == Saved(row)
    {
      LatestIsLast(table, row.key);
    }
    forall key | key in DistinctKeys(table)
      ensures exists row <- CurrentSet(table) :: row.key == key
    {
      LatestIsLast(table, key);
      assert Latest(table, key).value in CurrentSet(table);
    }
  }

  // ------------------------------------------------------------------- operations

  datatype Op =
    | Insert(key: seq<string>, user: string, values: map<string, string>)
    | Revert(user: string, selected: set<nat>)
    | Evict(cacheKey: string)
    | Pass(seconds: nat)
    | AskCurrent(wanted: seq<string>)
    | AskKeyValues

  datatype Answer = NoAnswer | Config(entry: Entry) | Keys(keys: seq<seq<string>>)

  function NextRow(s: State, key: seq<string>, user: string, values: map<string, string>): Row {
    Row(|s.table| + 1, s.now, key, user, values)
  }

  function Cleared(m: Model, cache: map<string, Cached>, key: seq<string>): map<string, Cached> {
    cache - {CurrentKey(m, key)} - if m.keyFields != [] then {KeyValuesKey(m)} else {}
  }

  function AfterInsert(m: Model, s: State, key: seq<string>, user: string, values: map<string, string>): State {
    s.(table := s.table + [NextRow(s, key, user, values)], cache := Cleared(m, s.cache, key))
  }

  function Fetch(s: State, cacheKey: string): Option<Cached> {
    if cacheKey in s.cache && s.now < s.cache[cacheKey].expires then Some(s.cache[cacheKey]) else None
  }

  /** The rows of a selection, each once; ids that are not in the table select nothing. */
  function Chosen(table: seq<Row>, selected: set<nat>): seq<Row> {
    if table == [] then []
    else (if table[0].id in selected then [table[0]] else []) + Chosen(table[1..], selected)
  }

  /** A revert of exactly one selected row appends a copy of it; any other selection does nothing. */
  function AfterRevert(m: Model, s: State, user: string, selected: set<nat>): State {
    var rows := Chosen(s.table, selected);
    if |rows| != 1 then s
    else
      var target := rows[0];
      var t := AfterInsert(m, s, target.key, user, target.values);
      t.(cache := t.cache - {CurrentKey(m, target.key), KeyValuesKey(m)})
  }

  function Step(m: Model, s: State, op: Op): (State, Answer) {
    match op
    case Insert(key, user, values) => (AfterInsert(m, s, key, user, values), NoAnswer)
    case Revert(user, selected) => (AfterRevert(m, s, user, selected), NoAnswer)
    case Evict(cacheKey) => (s.(cache := s.cache - {cacheKey}), NoAnswer)
    case Pass(seconds) => (s.(now := s.now + seconds), NoAnswer)
    case AskCurrent(key) =>
      var hit := Fetch(s, CurrentKey(m, key));
      if hit.Some? && hit.value.Current? then (s, Config(hit.value.entry))
      else
        var e := Uncached(s.table, key);
        (s.(cache := s.cache[CurrentKey(m, key) := Current(e, s.now + m.timeout)]), Config(e))
    case AskKeyValues =>
      var hit := Fetch(s, KeyValuesKey(m));
      if hit.Some? && hit.value.KeyList? then (s, Keys(hit.value.keys))
      else
        var keys := DistinctKeys(s.table);
        (s.(cache := s.cache[KeyValuesKey(m) := KeyList(keys, s.now + m.timeout)]), Keys(keys))
  }

  /** Rows are appended at strictly later times, and keys have a part for every key field. */
  ghost predicate Permitted(m: Model, s: State, op: Op) {
    match op
    case Insert(key, _, _) => |key| == |m.keyFields| && Later(s)
    case Revert(_, _) => Later(s)
    case AskCurrent(key) => |key| == |m.keyFields|
    case _ => true
  }

  ghost predicate Later(s: State) {
    forall row <- s.table :: row.changeDate < s.now
  }

  ghost predicate Coherent(m: Model, s: State) {
    && (forall row <- s.table :: |row.key| == |m.keyFields|)
    && (forall i | 0 <= i < |s.table| :: s.table[i].id == i + 1)
    && Grows(s.table)
    && (forall key | Separable(m, key) && CurrentKey(m, key) in s.cache ::
          var c := s.cache[CurrentKey(m, key)]; c.Current? && c.entry == Uncached(s.table, key))
    && (m.keyFields != [] && KeyValuesKey(m) in s.cache ==>
          var c := s.cache[KeyValuesKey(m)]; c.KeyList? && c.keys == DistinctKeys(s.table))
  }

  lemma InsertKeepsCoherence(m: Model, s: State, key: seq<string>, user: string, values: map<string, string>)
    requires Coherent(m, s) && |key| == |m.keyFields| && Later(s)
    ensures Coherent(m, AfterInsert(m, s, key, user, values))
  {
    var t := AfterInsert(m, s, key, user, values);
    assert t.table[..|t.table| - 1] == s.table;
    forall other | Separable(m, other) && CurrentKey(m, other) in t.cache
      ensures var c := t.cache[CurrentKey(m, other)]; c.Current? && c.entry == Uncached(t.table, other)
    {
      assert other != key;
      assert Uncached(t.table, other) == Uncached(s.table, other);
    }
  }

  lemma AskKeepsCoherence(m: Model, s: State, key: seq<string>)
    requires Coherent(m, s) && |key| == |m.keyFields|
    ensures Coherent(m, Step(m, s, AskCurrent(key)).0)
  {
    var t := Step(m, s, AskCurrent(key)).0;
    forall other | Separable(m, other) && CurrentKey(m, other) in t.cache
      ensures var c := t.cache[CurrentKey(m, other)]; c.Current? && c.entry == Uncached(t.table, other)
    {
      CacheKeysDiffer(m, other, key);
    }
    CurrentKeyEndsInJoin(m, key);
  }

  lemma AskKeysKeepsCoherence(m: Model, s: State)
    requires Coherent(m, s)
    ensures Coherent(m, Step(m, s, AskKeyValues).0)
  {
    var t := Step(m, s, AskKeyValues).0;
    forall other | Separable(m, other) && CurrentKey(m, other) in t.cache
      ensures var c := t.cache[CurrentKey(m, other)]; c.Current? && c.entry == Uncached(t.table, other)
    {
      CurrentKeyEndsInJoin(m, other);
    }
  }

  lemma StepKeepsCoherence(m: Model, s: State, op: Op)
    requires Coherent(m, s) && Permitted(m, s, op)
    ensures Coherent(m, Step(m, s, op).0)
  {
    match op
    case Insert(key, user, values) => InsertKeepsCoherence(m, s, key, user, values);
    case Revert(user, selected) =>
      var rows := Chosen(s.table, selected);
      if |rows| == 1 {
        ChosenAre(s.table, selected);
        assert rows[0] in rows;
        InsertKeepsCoherence(m, s, rows[0].key, user, rows[0].values);
      }
    case AskCurrent(key) => AskKeepsCoherence(m, s, key);
    case AskKeyValues => AskKeysKeepsCoherence(m, s);
    case _ =>
  }

  lemma {:induction false} ChosenAre(table: seq<Row>, selected: set<nat>)
    ensures forall row :: row in Chosen(table, selected) <==> row in table && row.id in selected
  {
    if table != [] {
      ChosenAre(table[1..], selected);
      assert forall row :: row in table <==> row == table[0] || row in table[1..];
    }
  }

  /** Row `i` is the one row of the table that is selected. */
  ghost predicate Only(table: seq<Row>, selected: set<nat>, i: int) {
    0 <= i < |table| && forall j | 0 <= j < |table| :: table[j].id in selected <==> j == i
  }

  lemma {:induction false} ChosenNone(table: seq<Row>, selected: set<nat>)
    requires forall row <- table :: row.id !in selected
    ensures Chosen(table, selected) == []
  {
    if table != [] { ChosenNone(table[1..], selected); }
  }

  lemma {:induction false} ChosenOne(table: seq<Row>, selected: set<nat>, i: nat)
    requires Only(table, selected, i)
    ensures Chosen(table, selected) == [table[i]]
  {
    if i == 0 {
      ChosenNone(table[1..], selected);
    } else {
      ChosenOne(table[1..], selected, i - 1);
    }
  }

  lemma {:induction false} OneChosen(table: seq<Row>, selected: set<nat>) returns (i: nat)
    requires |Chosen(table, selected)| == 1
    ensures Only(table, selected, i)
  {
    var rest := table[1..];
    if table[0].id in selected {
      i := 0;
      ChosenAre(rest, selected);
      assert Chosen(rest, selected) == [];
      forall j | 0 < j < |table| ensures table[j].id !in selected {
        assert table[j] == rest[j - 1] && table[j] in rest;
      }
    } else {
      i := OneChosen(rest, selected);
      i := i + 1;
      assert forall j | 0 < j < |table| :: table[j] == rest[j - 1];
    }
  }

  function Run(m: Model, s: State, ops: seq<Op>): State
    decreases ops
  {
    if ops == [] then s else Run(m, Step(m, s, ops[0]).0, ops[1..])
  }

  ghost predicate PermittedRun(m: Model, s: State, ops: seq<Op>)
    decreases ops
  {
    ops != [] ==> Permitted(m, s, ops[0]) && PermittedRun(m, Step(m, s, ops[0]).0, ops[1..])
  }

  lemma {:induction false} RunKeepsCoherence(m: Model, s: State, ops: seq<Op>)
    requires Coherent(m, s) && PermittedRun(m, s, ops)
    ensures Coherent(m, Run(m, s, ops))
    decreases ops
  {
    if ops != [] {
      StepKeepsCoherence(m, s, ops[0]);
      RunKeepsCoherence(m, Step(m, s, ops[0]).0, ops[1..]);
    }
  }

  function Empty(start: int): State { State([], map[], start) }

  /** `current(key)` is the uncached latest row, or the default exactly for keys without a row. */
  ghost predicate CurrentIsUncached(m: Model, s: State, key: seq<string>) {
    && Step(m, s, AskCurrent(key)).1 == Config(Uncached(s.table, key))
    && (Uncached(s.table, key).Saved? <==> key in DistinctKeys(s.table))
  }

  /**
   * After any run from an empty table and cache, `current` of a separable key is its
   * uncached latest row, whatever other keys were saved and asked for, and the key list
   * is the distinct keys of the table, which are the keys with a saved current row.
   */
  lemma {:induction false} CacheIsCoherent(m: Model, start: int, ops: seq<Op>, key: seq<string>)
    requires PermittedRun(m, Empty(start), ops)
    ensures var s := Run(m, Empty(start), ops);
      && (Separable(m, key) ==> CurrentIsUncached(m, s, key))
      && (m.keyFields != [] ==> Step(m, s, AskKeyValues).1 == Keys(DistinctKeys(s.table)))
  {
    RunKeepsCoherence(m, Empty(start), ops);
    CoherentAnswers(m, Run(m, Empty(start), ops), key);
  }

  lemma CoherentAnswers(m: Model, s: State, key: seq<string>)
    requires Coherent(m, s)
    ensures Separable(m, key) ==> CurrentIsUncached(m, s, key)
    ensures m.keyFields != [] ==> Step(m, s, AskKeyValues).1 == Keys(DistinctKeys(s.table))
  {
    LatestIsLast(s.table, key);
  }

  /** In every run `current(key)` is the uncached latest row. */
  ghost predicate AlwaysUncached(m: Model, key: seq<string>) {
    forall start, ops | PermittedRun(m, Empty(start), ops) :: CurrentIsUncached(m, Run(m, Empty(start), ops), key)
  }

  /**
   * A key is always answered with its latest row exactly when it is separable. For any
   * other key, saving and asking for its twin is enough: the twin's row is then returned.
   */
  lemma SeparableIsCoherent(m: Model, key: seq<string>)
    requires |key| == |m.keyFields| && m.timeout > 0
    ensures Separable(m, key) <==> AlwaysUncached(m, key)
  {
    if Separable(m, key) {
      forall start, ops | PermittedRun(m, Empty(start), ops)
        ensures CurrentIsUncached(m, Run(m, Empty(start), ops), key)
      {
        CacheIsCoherent(m, start, ops, key);
      }
    } else {
      var twin := TwinKey(key);
      SharedEntryRun(m, 0, key, twin, "", map[]);
    }
  }

  /** Of two keys with one cache key, asking for the other makes the first return the other's row. */
  lemma {:induction false} SharedEntryRun(
      m: Model, start: int, key: seq<string>, other: seq<string>, user: string, values: map<string, string>)
    requires |other| == |key| == |m.keyFields| && m.timeout > 0
    requires other != key && CurrentKey(m, other) == CurrentKey(m, key)
    ensures var ops := [Insert(other, user, values), AskCurrent(other)];
      PermittedRun(m, Empty(start), ops) && Step(m, Run(m, Empty(start), ops), AskCurrent(key)).1
        == Config(Saved(Row(1, start, other, user, values))) != Config(Uncached(Run(m, Empty(start), ops).table, key))
  {
    var row := Row(1, start, other, user, values);
    var s1 := State([row], map[], start);
    InsertIntoEmpty(m, start, other, user, values);
    LatestOfOne(row, other);
    LatestOfOne(row, key);
    RunOfTwo(m, Empty(start), Insert(other, user, values), AskCurrent(other));
    var s2 := s1.(cache := map[CurrentKey(m, other) := Current(Saved(row), start + m.timeout)]);
    assert Step(m, s1, AskCurrent(other)).0 == s2;
    HitIsReturned(m, s2, key, Saved(row));
  }

  lemma InsertIntoEmpty(m: Model, start: int, key: seq<string>, user: string, values: map<string, string>)
    ensures Step(m, Empty(start), Insert(key, user, values)).0
         == State([Row(1, start, key, user, values)], map[], start)
  {
  }

  lemma HitIsReturned(m: Model, s: State, key: seq<string>, e: Entry)
    requires CurrentKey(m, key) in s.cache && s.cache[CurrentKey(m, key)] == Current(e, s.now + m.timeout)
    requires m.timeout > 0
    ensures Step(m, s, AskCurrent(key)).1 == Config(e)
  {
  }

  lemma {:induction false} RunOfTwo(m: Model, s: State, a: Op, b: Op)
    ensures var t := Step(m, s, a).0;
      && Run(m, s, [a, b]) == Step(m, t, b).0
      && (PermittedRun(m, s, [a, b]) <==> Permitted(m, s, a) && Permitted(m, t, b))
  {
    var t := Step(m, s, a).0;
    assert [a, b][1..] == [b] && [b][1..] == [];
    assert Run(m, t, [b]) == Step(m, t, b).0;
    assert PermittedRun(m, t, [b]) <==> Permitted(m, t, b);
  }

  lemma {:induction false} LatestOfOne(row: Row, key: seq<string>)
    ensures Latest([row], key) == if row.key == key then Some(row) else None
  {
    assert [row][..0] == [];
  }

  /** Asking again straight away is answered from the cache, and changes nothing. */
  lemma SecondAskHits(m: Model, s: State, key: seq<string>)
    requires m.timeout > 0
    ensures var (t, answer) := Step(m, s, AskCurrent(key)); Step(m, t, AskCurrent(key)) == (t, answer)
    ensures var (t, answer) := Step(m, s, AskKeyValues); Step(m, t, AskKeyValues) == (t, answer)
  {
  }

  /**
   * Reverting with exactly one row of the table selected appends a row equal to it but for
   * id, date and user. That row is then current and active for its key, and all older rows
   * are as before.
   */
  lemma RevertAppends(m: Model, s: State, user: string, selected: set<nat>, i: nat)
    requires Coherent(m, s) && Later(s) && Only(s.table, selected, i)
    ensures var t := AfterRevert(m, s, user, selected); var was := s.table[i];
            var next := Row(|s.table| + 1, s.now, was.key, user, was.values);
      && t.table == s.table + [next]
      && Step(m, t, AskCurrent(was.key)).1 == Config(Saved(next))
      && next in CurrentSet(t.table)
  {
    var target := s.table[i];
    ChosenOne(s.table, selected, i);
    InsertBecomesCurrent(m, s, target.key, user, target.values);
    var next := NextRow(s, target.key, user, target.values);
    var t := AfterRevert(m, s, user, selected);
    assert t.table == s.table + [next];
    AskFresh(m, t, target.key);
  }

  /** Without an entry in the cache, `current` reads the table. */
  lemma AskFresh(m: Model, s: State, key: seq<string>)
    requires CurrentKey(m, key) !in s.cache
    ensures Step(m, s, AskCurrent(key)).1 == Config(Uncached(s.table, key))
  {
  }

  /** With no row of the table selected, or several, nothing is reverted. */
  lemma RevertNeedsOneRow(m: Model, s: State, user: string, selected: set<nat>)
    requires forall i :: !Only(s.table, selected, i)
    ensures AfterRevert(m, s, user, selected) == s
  {
    if |Chosen(s.table, selected)| == 1 {
      var _ := OneChosen(s.table, selected);
    }
  }

  lemma {:induction false} InsertBecomesCurrent(
      m: Model, s: State, key: seq<string>, user: string, values: map<string, string>)
    requires Coherent(m, s) && |key| == |m.keyFields| && Later(s)
    ensures var t := AfterInsert(m, s, key, user, values); var r := NextRow(s, key, user, values);
      Latest(t.table, key) == Some(r) && r in CurrentSet(t.table)
  {
    var t := AfterInsert(m, s, key, user, values);
    InsertKeepsCoherence(m, s, key, user, values);
    assert t.table[..|t.table| - 1] == s.table;
    LatestIsLast(s.table, key);
    LatestIsLast(t.table, key);
  }

  /** The step of a save from `s` to `t`. */
  ghost predicate Adds(s: State, t: State, row: Row) {
    && t.table == s.table + [row] && t.now == s.now
    && forall other | other != row.key :: Latest(t.table, other) == Latest(s.table, other)
  }

  lemma InsertAdds(m: Model, s: State, key: seq<string>, user: string, values: map<string, string>)
    ensures Adds(s, Step(m, s, Insert(key, user, values)).0, Row(|s.table| + 1, s.now, key, user, values))
    ensures CurrentKey(m, key) !in Step(m, s, Insert(key, user, values)).0.cache
  {
    var t := Step(m, s, Insert(key, user, values)).0;
    assert t.table[..|t.table| - 1] == s.table;
  }

  /**
   * In any state that a run reaches, saving adds exactly its row to the table, and
   * `current` of the key, with commas or without, then returns it. The latest rows of
   * all other keys are as before.
   */
  lemma {:induction false} SavedIsCurrent(
      m: Model, start: int, ops: seq<Op>, key: seq<string>, user: string, values: map<string, string>)
    requires PermittedRun(m, Empty(start), ops) && |key| == |m.keyFields| && Later(Run(m, Empty(start), ops))
    ensures var s := Run(m, Empty(start), ops);
            var t := Step(m, s, Insert(key, user, values)).0;
            var row := Row(|s.table| + 1, s.now, key, user, values);
      Adds(s, t, row) && Step(m, t, AskCurrent(key)).1 == Config(Saved(row))
  {
    RunKeepsCoherence(m, Empty(start), ops);
    InsertIsSeen(m, Run(m, Empty(start), ops), key, user, values);
  }

  lemma InsertIsSeen(m: Model, s: State, key: seq<string>, user: string, values: map<string, string>)
    requires Coherent(m, s) && |key| == |m.keyFields| && Later(s)
    ensures var t := Step(m, s, Insert(key, user, values)).0;
            var row := Row(|s.table| + 1, s.now, key, user, values);
      Adds(s, t, row) && Step(m, t, AskCurrent(key)).1 == Config(Saved(row))
  {
    InsertAdds(m, s, key, user, values);
    InsertBecomesCurrent(m, s, key, user, values);
    AskFresh(m, Step(m, s, Insert(key, user, values)).0, key);
  }

  /** An entry answers for as long as the timeout, and no longer. */
  lemma EntryLivesForTimeout(m: Model, s: State, key: seq<string>, seconds: nat)
    requires CurrentKey(m, key) !in s.cache
    ensures var t := Step(m, Step(m, s, AskCurrent(key)).0, Pass(seconds)).0;
      Fetch(t, CurrentKey(m, key)).Some? <==> seconds < m.timeout
  {
  }

  // ---------------------------------------------- what was saved, from the operations

  /** What a save or a revert put into the table. */
  datatype Saving = Saving(key: seq<string>, user: string, values: map<string, string>)

  /** Of `n` savings, counted from one, the selection holds exactly number `i + 1`. */
  ghost predicate Singles(n: nat, selected: set<nat>, i: int) {
    0 <= i < n && (set id <- selected | 1 <= id <= n) == {i + 1}
  }

  /** The savings after an operation: a revert saves the one selected saving again. */
  ghost function Logged(log: seq<Saving>, op: Op): seq<Saving> {
    match op
    case Insert(key, user, values) => log + [Saving(key, user, values)]
    case Revert(user, selected) =>
      if i :| Singles(|log|, selected, i) then log + [log[i].(user := user)] else log
    case _ => log
  }

  /** All savings of a run, read from its operations alone. */
  ghost function Log(log: seq<Saving>, ops: seq<Op>): seq<Saving>
    decreases ops
  {
    if ops == [] then log else Log(Logged(log, ops[0]), ops[1..])
  }

  function LastSaving(log: seq<Saving>, key: seq<string>): Option<Saving> {
    if log == [] then None
    else if log[|log| - 1].key == key then Some(log[|log| - 1])
    else LastSaving(log[..|log| - 1], key)
  }

  /** The rows of the table are the savings, in order and numbered from one. */
  ghost predicate Records(table: seq<Row>, log: seq<Saving>) {
    && |table| == |log|
    && forall i | 0 <= i < |log| :: table[i].id == i + 1 && SavingOf(table[i]) == log[i]
  }

  function SavingOf(row: Row): Saving { Saving(row.key, row.changedBy, row.values) }

  lemma RevertRecords(m: Model, s: State, log: seq<Saving>, user: string, selected: set<nat>)
    requires Records(s.table, log)
    ensures Records(Step(m, s, Revert(user, selected)).0.table, Logged(log, Revert(user, selected)))
  {
    var rows := Chosen(s.table, selected);
    if i :| Singles(|log|, selected, i) {
      SinglesAreOnly(s.table, log, selected, i);
      forall k | Singles(|log|, selected, k) ensures k == i {
        assert i + 1 in (set id <- selected | 1 <= id <= |log|);
      }
      ChosenOne(s.table, selected, i);
    } else if |rows| == 1 {
      var i := OneChosen(s.table, selected);
      SinglesAreOnly(s.table, log, selected, i);
      assert false;
    }
  }

  lemma SinglesAreOnly(table: seq<Row>, log: seq<Saving>, selected: set<nat>, i: int)
    requires Records(table, log)
    ensures Singles(|log|, selected, i) <==> Only(table, selected, i)
  {
    var picked := set id <- selected | 1 <= id <= |log|;
    if Only(table, selected, i) {
      forall id | id in picked ensures id == i + 1 { assert table[id - 1].id in selected; }
      assert table[i].id in selected;
      assert picked == {i + 1};
    } else if Singles(|log|, selected, i) {
      forall j | 0 <= j < |table| ensures table[j].id in selected <==> j == i {
        assert j + 1 in picked <==> j + 1 in selected;
      }
    }
  }

  lemma StepRecords(m: Model, s: State, log: seq<Saving>, op: Op)
    requires Records(s.table, log)
    ensures Records(Step(m, s, op).0.table, Logged(log, op))
  {
    if op.Revert? { RevertRecords(m, s, log, op.user, op.selected); }
  }

  lemma {:induction false} RunRecords(m: Model, s: State, log: seq<Saving>, ops: seq<Op>)
    requires Records(s.table, log)
    ensures Records(Run(m, s, ops).table, Log(log, ops))
    decreases ops
  {
    if ops != [] {
      StepRecords(m, s, log, ops[0]);
      RunRecords(m, Step(m, s, ops[0]).0, Logged(log, ops[0]), ops[1..]);
    }
  }

  lemma {:induction false} LatestIsLastSaving(table: seq<Row>, log: seq<Saving>, key: seq<string>)
    requires Records(table, log) && Grows(table)
    ensures match LastSaving(log, key)
      case None => Latest(table, key) == None
      case Some(saving) => Latest(table, key).Some? && SavingOf(Latest(table, key).value) == saving
  {
    if log != [] {
      var front := table[..|table| - 1];
      LatestIsLastSaving(front, log[..|log| - 1], key);
      SplitLast(table);
      LatestIsLast(front, key);
    }
  }

  /**
   * In every run `current` of a separable key holds what the last save or revert of the
   * key put there, read from the operations alone, and the default if there was none.
   */
  lemma {:induction false} CurrentIsLastSaving(m: Model, start: int, ops: seq<Op>, key: seq<string>)
    requires PermittedRun(m, Empty(start), ops) && Separable(m, key)
    ensures var entry := Step(m, Run(m, Empty(start), ops), AskCurrent(key)).1.entry;
      match LastSaving(Log([], ops), key)
      case None => entry == Unsaved(key)
      case Some(saving) => entry.Saved? && SavingOf(entry.row) == saving
  {
    var s := Run(m, Empty(start), ops);
    RunKeepsCoherence(m, Empty(start), ops);
    RunRecords(m, Empty(start), [], ops);
    CacheIsCoherent(m, start, ops, key);
    LatestIsLastSaving(s.table, Log([], ops), key);
  }

  // ------------------------------------------------------------------- the class

  /** A configuration model over its table and cache; every method is one `Step`. */
  class ConfigurationModel {
    const model: Model
    var table: seq<Row>
    var cache: map<string, Cached>
    var now: int

    constructor (model: Model, now: int)
      ensures this.model == model && Contents() == Empty(now)
    {
      this.model, this.now := model, now;
      table, cache := [], map[];
    }

    function Contents(): State
      reads this
    {
      State(table, cache, now)
    }

    method Save(key: seq<string>, user: string, values: map<string, string>)
      modifies this
      ensures Contents() == Step(model, old(Contents()), Insert(key, user, values)).0
    {
      table := table + [Row(|table| + 1, now, key, user, values)];
      cache := cache - {CurrentKey(model, key)};
      if model.keyFields != [] { cache := cache - {KeyValuesKey(model)}; }
    }

    method RevertTo(user: string, selected: set<nat>)
      modifies this
      ensures Contents() == Step(model, old(Contents()), Revert(user, selected)).0
    {
      var rows := Chosen(table, selected);
      if |rows| != 1 { return; }
      var target := rows[0];
      Save(target.key, user, target.values);
      cache := cache - {CurrentKey(model, target.key)};
      cache := cache - {KeyValuesKey(model)};
    }

    /** Raises, as None, when the number of arguments is not the number of key fields. */
    method CurrentEntry(args: seq<string>) returns (r: Option<Entry>)
      modifies this
      ensures r.None? <==> model.keyFields != [] && |args| != |model.keyFields|
      ensures r.None? ==> Contents() == old(Contents())
      ensures r.Some? ==> var key := if model.keyFields == [] then [] else args;
        (Contents(), Config(r.value)) == Step(model, old(Contents()), AskCurrent(key))
    {
      if model.keyFields != [] && |args| != |model.keyFields| { return None; }
      var key := if model.keyFields == [] then [] else args;
      var cached := Fetch(Contents(), CurrentKey(model, key));
      if cached.Some? && cached.value.Current? { return Some(cached.value.entry); }
      var latest := Latest(table, key);
      var current := if latest.Some? then Saved(latest.value) else Unsaved(key);
      cache := cache[CurrentKey(model, key) := Current(current, now + model.timeout)];
      return Some(current);
    }

    method KeyValues() returns (keys: seq<seq<string>>)
      modifies this
      ensures (Contents(), Keys(keys)) == Step(model, old(Contents()), AskKeyValues)
    {
      var cached := Fetch(Contents(), KeyValuesKey(model));
      if cached.Some? && cached.value.KeyList? { return cached.value.keys; }
      keys := DistinctKeys(table);
      cache := cache[KeyValuesKey(model) := KeyList(keys, now + model.timeout)];
    }
  }
}
