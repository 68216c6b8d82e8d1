/**
 * Model instances cached by primary key. An entry holds the non-key fields of a row; a
 * hit rebuilds the instance from it. Saving and deleting clear the entry.
 */
module InstanceCache {
  import opened Common
  import opened Decimal

  datatype Value = Key(pk: nat) | Text(text: string) | FileRef(name: string)

  datatype Kind = Plain | File

  datatype Field = Field(attname: string, kind: Kind, primaryKey: bool, default: Value)

  datatype Schema = Schema(appLabel: string, moduleName: string, fields: seq<Field>)

  type Row = map<string, Value>

  datatype State = State(store: map<nat, Row>, cache: map<string, Row>)

  function Names(fields: seq<Field>): set<string> {
    set f <- fields :: f.attname
  }

  predicate DistinctNames(fields: seq<Field>) {
    fields != [] ==>
      fields[|fields| - 1].attname !in Names(fields[..|fields| - 1]) && DistinctNames(fields[..|fields| - 1])
  }

  lemma {:induction false} SameField(fields: seq<Field>, f: Field, g: Field)
    requires DistinctNames(fields) && f in fields && g in fields && f.attname == g.attname
    ensures f == g
  {
    var front, last := fields[..|fields| - 1], fields[|fields| - 1];
    assert fields == front + [last];
    if f in front && g in front { SameField(front, f, g); }
  }

  /** Attribute names are distinct and exactly one field is the key. */
  ghost predicate ValidSchema(s: Schema) {
    && DistinctNames(s.fields)
    && (exists i :: 0 <= i < |s.fields| && s.fields[i].primaryKey)
    && (forall i, j | 0 <= i < j < |s.fields| :: !(s.fields[i].primaryKey && s.fields[j].primaryKey))
  }

  ghost predicate HoldsValue(f: Field, pk: nat, v: Value) {
    if f.primaryKey then v == Key(pk) else if f.kind == File then v.FileRef? else v.Text?
  }

  ghost predicate ValidRow(s: Schema, pk: nat, row: Row) {
    && (forall f <- s.fields :: f.attname in row && HoldsValue(f, pk, row[f.attname]))
    && row.Keys <= Names(s.fields)
  }

  function InstanceKey(s: Schema, pk: nat): string {
    s.appLabel + "." + s.moduleName + ":" + Numeral(pk)
  }

  lemma InstanceKeyIsInjective(s: Schema, a: nat, b: nat)
    requires InstanceKey(s, a) == InstanceKey(s, b)
    ensures a == b
  {
    var n := |s.appLabel + "." + s.moduleName + ":"|;
    assert Numeral(a) == InstanceKey(s, a)[n..] == InstanceKey(s, b)[n..] == Numeral(b);
    NumeralIsInjective(a, b);
  }

  // ------------------------------------------------------ dictionary of a row

  /** Files are cached by name only. */
  function Serialized(f: Field, v: Value): Value {
    if f.kind == File && v.FileRef? then Text(v.name) else v
  }

  /** The dictionary cached for a row: its non-key fields. */
  function DataOf(fields: seq<Field>, row: Row): Row
    requires forall f <- fields :: f.attname in row
  {
    if fields == [] then map[]
    else
      var front, f := fields[..|fields| - 1], fields[|fields| - 1];
      var data := DataOf(front, row);
      if f.primaryKey then data else data[f.attname := Serialized(f, row[f.attname])]
  }

  /** What a field becomes when an instance is constructed: a file field wraps a name again. */
  function Constructed(f: Field, pk: nat, data: Row): Value {
    if f.primaryKey then Key(pk)
    else if f.attname !in data then f.default
    else if f.kind == File && data[f.attname].Text? then FileRef(data[f.attname].text)
    else data[f.attname]
  }

  function NonKeyNames(fields: seq<Field>): set<string> {
    set f <- fields | !f.primaryKey :: f.attname
  }

  /**
   * `model(pk=pk, **data)`: raises, as None, on a name that is not a field. A value for the
   * key field itself is accepted, and overridden by `pk`.
   */
  function Rebuild(s: Schema, pk: nat, data: Row): Option<Row> {
    if !(data.Keys <= Names(s.fields)) then None else Some(Construct(s.fields, pk, data))
  }

  function Construct(fields: seq<Field>, pk: nat, data: Row): Row {
    if fields == [] then map[]
    else
      var f := fields[|fields| - 1];
      Construct(fields[..|fields| - 1], pk, data)[f.attname := Constructed(f, pk, data)]
  }

  lemma {:induction false} DataAt(fields: seq<Field>, row: Row)
    requires forall f <- fields :: f.attname in row
    requires DistinctNames(fields)
    ensures DataOf(fields, row).Keys == NonKeyNames(fields)
    ensures forall f <- fields | !f.primaryKey ::
      f.attname in DataOf(fields, row) && DataOf(fields, row)[f.attname] == Serialized(f, row[f.attname])
  {
    if fields != [] {
      var front, f := fields[..|fields| - 1], fields[|fields| - 1];
      DataAt(front, row);
      assert fields == front + [f];
      assert NonKeyNames(fields) == NonKeyNames(front) + if f.primaryKey then {} else {f.attname};
    }
  }

  lemma {:induction false} DataOfField(fields: seq<Field>, row: Row, f: Field)
    requires forall g <- fields :: g.attname in row
    requires DistinctNames(fields)
    requires f in fields && !f.primaryKey
    ensures f.attname in DataOf(fields, row) && DataOf(fields, row)[f.attname] == Serialized(f, row[f.attname])
  {
    DataAt(fields, row);
  }

  lemma {:induction false} ConstructAt(fields: seq<Field>, pk: nat, data: Row)
    requires DistinctNames(fields)
    ensures forall f <- fields ::
      f.attname in Construct(fields, pk, data) && Construct(fields, pk, data)[f.attname] == Constructed(f, pk, data)
    ensures Construct(fields, pk, data).Keys <= Names(fields)
  {
    if fields != [] {
      var front, f := fields[..|fields| - 1], fields[|fields| - 1];
      ConstructAt(front, pk, data);
      assert fields == front + [f];
    }
  }

  /** Rebuilding an instance inverts the dictionary built from its row. */
  lemma {:induction false} RebuildInverts(s: Schema, pk: nat, row: Row)
    requires ValidSchema(s) && ValidRow(s, pk, row)
    ensures Rebuild(s, pk, DataOf(s.fields, row)) == Some(row)
  {
    var data := DataOf(s.fields, row);
    DataAt(s.fields, row);
    ConstructAt(s.fields, pk, data);
    var built := Construct(s.fields, pk, data);
    forall f | f in s.fields ensures built[f.attname] == row[f.attname] {
      assert HoldsValue(f, pk, row[f.attname]);
      if !f.primaryKey { assert data[f.attname] == Serialized(f, row[f.attname]); }
    }
    SameRow(s.fields, built, row);
  }

  lemma SameRow(fields: seq<Field>, a: Row, b: Row)
    requires forall f <- fields :: f.attname in a && f.attname in b && a[f.attname] == b[f.attname]
    requires a.Keys <= Names(fields) && b.Keys <= Names(fields)
    ensures a == b
  {
    forall k | k in a || k in b ensures k in a && k in b && a[k] == b[k] {
      var f :| f in fields && f.attname == k;
    }
  }

  // -------------------------------------------------------------------- runs

  datatype Op =
    | Save(pk: nat, row: Row)
    | Remove(pk: nat)
    | Evict(key: string)
    | Spoil(key: string, data: Row)
    | Get(wanted: nat)

  /** A missing row is DoesNotExist. */
  datatype Answer = NoAnswer | Instance(row: Row) | DoesNotExist

  /** `get_cached`: the entry if it can be rebuilt, else the stored row, which is then cached. */
  ghost function GetStep(s: Schema, st: State, pk: nat): (State, Answer)
    requires pk in st.store ==> ValidRow(s, pk, st.store[pk])
  {
    var key := InstanceKey(s, pk);
    if key in st.cache && Rebuild(s, pk, st.cache[key]).Some?
    then (st, Instance(Rebuild(s, pk, st.cache[key]).value))
    else if pk in st.store
    then (st.(cache := st.cache[key := DataOf(s.fields, st.store[pk])]), Instance(st.store[pk]))
    else (st.(cache := st.cache - {key}), DoesNotExist)
  }

  ghost function Step(s: Schema, st: State, op: Op): (State, Answer)
    requires Fits(s, st)
  {
    match op
    case Save(pk, row) => (State(st.store[pk := row], st.cache - {InstanceKey(s, pk)}), NoAnswer)
    case Remove(pk) => (State(st.store - {pk}, st.cache - {InstanceKey(s, pk)}), NoAnswer)
    case Evict(key) => (st.(cache := st.cache - {key}), NoAnswer)
    case Spoil(key, data) => (st.(cache := st.cache[key := data]), NoAnswer)
    case Get(pk) => GetStep(s, st, pk)
  }

  /** Saved rows fit the schema; an entry from elsewhere may hold anything. */
  ghost predicate Permitted(s: Schema, op: Op) {
    op.Save? ==> ValidRow(s, op.pk, op.row)
  }

  ghost predicate Fits(s: Schema, st: State) {
    ValidSchema(s) && forall pk <- st.store :: ValidRow(s, pk, st.store[pk])
  }

  lemma StepFits(s: Schema, st: State, op: Op)
    requires Fits(s, st) && Permitted(s, op)
    ensures Fits(s, Step(s, st, op).0)
  {
  }

  ghost predicate PermittedRun(s: Schema, ops: seq<Op>) {
    ops != [] ==> PermittedRun(s, ops[..|ops| - 1]) && Permitted(s, ops[|ops| - 1])
  }

  ghost function Run(s: Schema, ops: seq<Op>): (st: State)
    requires ValidSchema(s) && PermittedRun(s, ops)
    ensures Fits(s, st)
  {
    if ops == [] then State(map[], map[])
    else
      var before, op := Run(s, ops[..|ops| - 1]), ops[|ops| - 1];
      StepFits(s, before, op);
      Step(s, before, op).0
  }

  /** What an operation does to the stored rows. */
  function Stored(store: map<nat, Row>, op: Op): map<nat, Row> {
    match op
    case Save(pk, row) => store[pk := row]
    case Remove(pk) => store - {pk}
    case _ => store
  }

  /** The rows that a run leaves in the store, whatever the cache did. */
  function StoreAfter(ops: seq<Op>): map<nat, Row> {
    if ops == [] then map[] else Stored(StoreAfter(ops[..|ops| - 1]), ops[|ops| - 1])
  }

  lemma StepStores(s: Schema, st: State, op: Op)
    requires Fits(s, st)
    ensures Step(s, st, op).0.store == Stored(st.store, op)
  {
  }

  lemma {:induction false} RunStore(s: Schema, ops: seq<Op>)
    requires ValidSchema(s) && PermittedRun(s, ops)
    ensures Run(s, ops).store == StoreAfter(ops)
  {
    if ops != [] {
      RunStore(s, ops[..|ops| - 1]);
      StepStores(s, Run(s, ops[..|ops| - 1]), ops[|ops| - 1]);
    }
  }

  /** What an operation does to the record of data put under a row's cache key from elsewhere. */
  function SpoiltBy(s: Schema, spoilt: Option<Row>, op: Op, pk: nat): Option<Row> {
    match op
    case Save(k, _) => if k == pk then None else spoilt
    case Remove(k) => if k == pk then None else spoilt
    case Evict(key) => if key == InstanceKey(s, pk) then None else spoilt
    case Spoil(key, data) => if key == InstanceKey(s, pk) then Some(data) else spoilt
    case Get(_) => spoilt
  }

  /** The data that was put under a row's cache key from elsewhere, and not cleared since. */
  function Spoilt(s: Schema, ops: seq<Op>, pk: nat): Option<Row> {
    if ops == [] then None else SpoiltBy(s, Spoilt(s, ops[..|ops| - 1], pk), ops[|ops| - 1], pk)
  }

  /** The row's entry is what was put there from elsewhere; otherwise it can be rebuilt only as the stored row. */
  ghost predicate Tracks(s: Schema, st: State, pk: nat, spoilt: Option<Row>) {
    var entry := Lookup(st.cache, InstanceKey(s, pk));
    || (spoilt.Some? && entry == spoilt)
    || ((spoilt.Some? ==> Rebuild(s, pk, spoilt.value).None?) && Agrees(s, st.store, pk, entry))
  }

  ghost predicate Agrees(s: Schema, store: map<nat, Row>, pk: nat, entry: Option<Row>) {
    entry.Some? && Rebuild(s, pk, entry.value).Some? ==>
      pk in store && ValidRow(s, pk, store[pk]) && entry.value == DataOf(s.fields, store[pk])
  }

  lemma OthersTrack(s: Schema, st: State, t: State, own: nat, pk: nat, spoilt: Option<Row>)
    requires Tracks(s, st, pk, spoilt) && pk != own && Lookup(t.store, pk) == Lookup(st.store, pk)
    requires t.cache - {InstanceKey(s, own)} == st.cache - {InstanceKey(s, own)}
    ensures Tracks(s, t, pk, spoilt)
  {
    if InstanceKey(s, pk) == InstanceKey(s, own) { InstanceKeyIsInjective(s, pk, own); }
    var key := InstanceKey(s, pk);
    assert Lookup(t.cache, key) == Lookup(t.cache - {InstanceKey(s, own)}, key);
    assert Lookup(st.cache, key) == Lookup(st.cache - {InstanceKey(s, own)}, key);
  }

  lemma GetTracks(s: Schema, st: State, pk: nat, spoilt: Option<Row>)
    requires Fits(s, st) && Tracks(s, st, pk, spoilt)
    ensures Tracks(s, GetStep(s, st, pk).0, pk, spoilt)
  {
  }

  /** The row that an operation is about, if it is about one. */
  function Subject(op: Op): Option<nat> {
    match op
    case Save(k, _) => Some(k)
    case Remove(k) => Some(k)
    case Get(k) => Some(k)
    case _ => None
  }

  lemma StepElsewhere(s: Schema, st: State, op: Op, own: nat, pk: nat)
    requires Fits(s, st) && Subject(op) == Some(own) && pk != own
    ensures var t := Step(s, st, op).0;
      t.cache - {InstanceKey(s, own)} == st.cache - {InstanceKey(s, own)} && Lookup(t.store, pk) == Lookup(st.store, pk)
  {
  }

  lemma StepTracks(s: Schema, st: State, op: Op, pk: nat, spoilt: Option<Row>)
    requires Fits(s, st) && Tracks(s, st, pk, spoilt)
    ensures Tracks(s, Step(s, st, op).0, pk, SpoiltBy(s, spoilt, op, pk))
  {
    var own := Subject(op);
    if own.Some? && own.value != pk {
      StepElsewhere(s, st, op, own.value, pk);
      OthersTrack(s, st, Step(s, st, op).0, own.value, pk, spoilt);
    } else if op.Get? {
      GetTracks(s, st, pk, spoilt);
    }
  }

  lemma {:induction false} RunTracks(s: Schema, ops: seq<Op>, pk: nat)
    requires ValidSchema(s) && PermittedRun(s, ops)
    ensures Tracks(s, Run(s, ops), pk, Spoilt(s, ops, pk))
  {
    if ops != [] {
      var front := ops[..|ops| - 1];
      RunTracks(s, front, pk);
      StepTracks(s, Run(s, front), ops[|ops| - 1], pk, Spoilt(s, front, pk));
    }
  }

  /**
   * After any run of saves, removals, evictions, lookups and foreign entries, `get_cached`
   * answers as the store does, exactly when no entry put under the key from elsewhere is
   * left, or that entry cannot be rebuilt, or it rebuilds to the stored row.
   */
  lemma {:induction false} CacheAgreesWithStore(s: Schema, ops: seq<Op>, pk: nat)
    requires ValidSchema(s) && PermittedRun(s, ops)
    ensures var st := Run(s, ops); var spoilt := Spoilt(s, ops, pk);
      && st.store == StoreAfter(ops)
      && (Step(s, st, Get(pk)).1 == (if pk in st.store then Instance(st.store[pk]) else DoesNotExist) <==>
            || spoilt.None?
            || Rebuild(s, pk, spoilt.value).None?
            || Rebuild(s, pk, spoilt.value) == Lookup(st.store, pk))
  {
    RunStore(s, ops);
    RunTracks(s, ops, pk);
    var st := Run(s, ops);
    if pk in st.store { RebuildInverts(s, pk, st.store[pk]); }
  }

  /**
   * The entry of a row as of a schema without one of its columns is rebuilt with that
   * column's default, so the lookup is right only if the row holds the default there.
   */
  lemma MissingColumnIsDefaulted(s: Schema, st: State, pk: nat, f: Field)
    requires Fits(s, st) && pk in st.store && f in s.fields && !f.primaryKey
    ensures var row := st.store[pk]; var data := DataOf(s.fields, row) - {f.attname};
      && Rebuild(s, pk, data) == Some(row[f.attname := f.default])
      && (GetStep(s, st.(cache := st.cache[InstanceKey(s, pk) := data]), pk).1 == Instance(row) <==>
            row[f.attname] == f.default)
  {
    var row := st.store[pk];
    RebuildsWithDefault(s, pk, row, f);
    assert row[f.attname := f.default][f.attname] == f.default;
    assert row[f.attname] == f.default ==> row[f.attname := f.default] == row;
  }

  lemma {:induction false} RebuildsWithDefault(s: Schema, pk: nat, row: Row, f: Field)
    requires ValidSchema(s) && ValidRow(s, pk, row) && f in s.fields && !f.primaryKey
    ensures Rebuild(s, pk, DataOf(s.fields, row) - {f.attname}) == Some(row[f.attname := f.default])
  {
    var data := DataOf(s.fields, row) - {f.attname};
    DataAt(s.fields, row);
    ConstructAt(s.fields, pk, data);
    var built, wanted := Construct(s.fields, pk, data), row[f.attname := f.default];
    forall g | g in s.fields ensures built[g.attname] == wanted[g.attname] {
      ConstructedOrDefault(s, pk, row, f, g);
    }
    assert wanted.Keys == row.Keys + {f.attname};
    SameRow(s.fields, built, wanted);
  }

  lemma {:induction false} ConstructedOrDefault(s: Schema, pk: nat, row: Row, f: Field, g: Field)
    requires ValidSchema(s) && ValidRow(s, pk, row) && f in s.fields && !f.primaryKey && g in s.fields
    ensures Constructed(g, pk, DataOf(s.fields, row) - {f.attname}) == row[f.attname := f.default][g.attname]
  {
    assert HoldsValue(g, pk, row[g.attname]);
    if g.attname == f.attname {
      SameField(s.fields, f, g);
    } else if !g.primaryKey {
      DataOfField(s.fields, row, g);
    }
  }

  /** An entry that cannot be rebuilt is replaced by the data of the stored row. */
  lemma SpoiledEntryIsReplaced(s: Schema, st: State, pk: nat, data: Row)
    requires Fits(s, st) && pk in st.store && Rebuild(s, pk, data).None?
    ensures var (t, answer) := GetStep(s, st.(cache := st.cache[InstanceKey(s, pk) := data]), pk);
      && answer == Instance(st.store[pk])
      && Rebuild(s, pk, t.cache[InstanceKey(s, pk)]) == Some(st.store[pk])
  {
    RebuildInverts(s, pk, st.store[pk]);
  }

  /** A lookup of a stored row leaves an entry from which the next one is answered alike, changing nothing. */
  lemma SecondGetHits(s: Schema, st: State, pk: nat)
    requires Fits(s, st)
    ensures var (t, answer) := GetStep(s, st, pk);
      && GetStep(s, t, pk) == (t, answer)
      && (pk in st.store ==> InstanceKey(s, pk) in t.cache && Rebuild(s, pk, t.cache[InstanceKey(s, pk)]).Some?)
  {
    var key := InstanceKey(s, pk);
    assert st.cache - {key} - {key} == st.cache - {key};
    if pk in st.store { RebuildInverts(s, pk, st.store[pk]); }
  }

  lemma PutAfterRemove(cache: map<string, Row>, key: string, data: Row)
    ensures (cache - {key})[key := data] == cache[key := data]
  {
  }

  // --------------------------------------------------------------------- class

  class CachedModel {
    const schema: Schema
    var store: map<nat, Row>
    var cache: map<string, Row>

    constructor (schema: Schema)
      ensures this.schema == schema && Contents() == State(map[], map[])
    {
      this.schema, store, cache := schema, map[], map[];
    }

    ghost function Contents(): State
      reads this
    {
      State(store, cache)
    }

    method GetInstance(pk: nat) returns (r: Answer)
      requires Fits(schema, Contents())
      modifies this`cache
      ensures (Contents(), r) == GetStep(schema, old(Contents()), pk)
    {
      var key := InstanceKey(schema, pk);
      ghost var before := cache;
      if key in cache {
        var instance := Rebuild(schema, pk, cache[key]);
        if instance.Some? { return Instance(instance.value); }
        cache := cache - {key};
      }
      assert cache == before - {key};
      if pk !in store { return DoesNotExist; }
      var data := BuildData(store[pk]);
      PutAfterRemove(before, key, data);
      cache := cache[key := data];
      return Instance(store[pk]);
    }

    method BuildData(row: Row) returns (data: Row)
      requires forall f <- schema.fields :: f.attname in row
      ensures data == DataOf(schema.fields, row)
    {
      data := map[];
      for i := 0 to |schema.fields|
        invariant data == DataOf(schema.fields[..i], row)
      {
        var f := schema.fields[i];
        assert schema.fields[..i + 1][..i] == schema.fields[..i];
        if f.primaryKey { continue; }
        if f.kind == File && row[f.attname].FileRef? {
          data := data[f.attname := Text(row[f.attname].name)];
        } else {
          data := data[f.attname := row[f.attname]];
        }
      }
      assert schema.fields[..|schema.fields|] == schema.fields;
    }

    /** An absent key is answered by nothing at all. */
    method GetCached(pk: Option<nat>) returns (r: Option<Answer>)
      requires Fits(schema, Contents())
      modifies this`cache
      ensures pk.None? ==> r.None? && Contents() == old(Contents())
      ensures pk.Some? ==> r.Some? && (Contents(), r.value) == Step(schema, old(Contents()), Get(pk.value))
    {
      if pk.None? { return None; }
      var answer := GetInstance(pk.value);
      return Some(answer);
    }

    method DeleteInstances(pks: seq<nat>)
      modifies this`cache
      ensures cache == old(cache) - set pk <- pks :: InstanceKey(schema, pk)
    {
      for i := 0 to |pks|
        invariant cache == old(cache) - set pk <- pks[..i] :: InstanceKey(schema, pk)
      {
        cache := cache - {InstanceKey(schema, pks[i])};
        assert pks[..i + 1] == pks[..i] + [pks[i]];
      }
      assert pks[..|pks|] == pks;
    }

    method SaveInstance(pk: nat, row: Row)
      requires Fits(schema, Contents())
      modifies this
      ensures Contents() == Step(schema, old(Contents()), Save(pk, row)).0
    {
      store := store[pk := row];
      DeleteInstances([pk]);
    }

    method RemoveInstance(pk: nat)
      requires Fits(schema, Contents())
      modifies this
      ensures Contents() == Step(schema, old(Contents()), Remove(pk)).0
    {
      store := store - {pk};
      DeleteInstances([pk]);
    }
  }
}
