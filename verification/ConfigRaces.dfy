/**
 * The configuration cache under concurrency. A `current` or `key_values` call is a cache
 * lookup, then on a miss a table read and a cache write; a `save` dates its row, inserts
 * it, deletes the entry of its key and then that of the key list. Any steps of any callers
 * may interleave, entries may be evicted at any time, and only the clock orders them.
 */
module ConfigRaces {
  import opened Common

  type Key = string
  datatype Row = Row(changeDate: int, key: Key, content: string)

  /** A cache entry: the current row of a key, or the list of keys. */
  datatype Slot = CurrentOf(key: Key) | KeyList

  /** In `Newest`, None stands for the unsaved default that is cached when a key has no row. */
  datatype Value = Newest(row: Option<Row>) | Listing(keys: set<Key>)

  datatype Entry = Entry(value: Value, expires: int)

  datatype Reader = Idle | Missed(slot: Slot) | Holding(wanted: Slot, value: Value)
  datatype Writer = Ready | Dated(row: Row) | Inserted(row: Row) | Deleted(row: Row)

  datatype World = World(
    clock: int, table: seq<Row>, cache: map<Slot, Entry>, readers: map<nat, Reader>, writers: map<nat, Writer>)

  datatype Event =
    | Tick(seconds: nat)
    | Evict(slot: Slot)
    | Hit(reader: nat, slot: Slot, value: Value)
    | Miss(reader: nat, slot: Slot)
    | Read(reader: nat, value: Value)
    | Fill(reader: nat)
    | Date(writer: nat, row: Row)
    | Insert(writer: nat)
    | Delete(writer: nat)
    | DeleteList(writer: nat)

  /**
   * What the table answers: for a key a row that no row of the key is later than, or
   * nothing if there is none; for the list the keys that have a row.
   */
  ghost predicate IsLatest(table: seq<Row>, slot: Slot, v: Value) {
    match slot
    case CurrentOf(key) =>
      v.Newest? && (match v.row
                    case None => forall row <- table :: row.key != key
                    case Some(r) =>
                      && r in table && r.key == key
                      && forall row <- table | row.key == key :: row.changeDate <= r.changeDate)
    case KeyList => v == Listing(set row <- table :: row.key)
  }

  function ReaderAt(w: World, r: nat): Reader { if r in w.readers then w.readers[r] else Idle }

  function WriterAt(w: World, p: nat): Writer { if p in w.writers then w.writers[p] else Ready }

  predicate Live(w: World, slot: Slot) { slot in w.cache && w.clock < w.cache[slot].expires }

  ghost predicate Next(timeout: int, w: World, e: Event, t: World) {
    match e
    case Tick(seconds) => t == w.(clock := w.clock + seconds)
    case Evict(slot) => t == w.(cache := w.cache - {slot})
    case Hit(r, slot, v) => ReaderAt(w, r) == Idle && Live(w, slot) && v == w.cache[slot].value && t == w
    case Miss(r, slot) =>
      ReaderAt(w, r) == Idle && !Live(w, slot) && t == w.(readers := w.readers[r := Missed(slot)])
    case Read(r, v) =>
      && ReaderAt(w, r).Missed? && IsLatest(w.table, ReaderAt(w, r).slot, v)
      && t == w.(readers := w.readers[r := Holding(ReaderAt(w, r).slot, v)])
    case Fill(r) =>
      && ReaderAt(w, r).Holding?
      && t == w.(readers := w.readers[r := Idle],
                 cache := w.cache[ReaderAt(w, r).wanted := Entry(ReaderAt(w, r).value, w.clock + timeout)])
    case Date(p, row) =>
      WriterAt(w, p) == Ready && row.changeDate == w.clock && t == w.(writers := w.writers[p := Dated(row)])
    case Insert(p) =>
      && WriterAt(w, p).Dated?
      && t == w.(table := w.table + [WriterAt(w, p).row], writers := w.writers[p := Inserted(WriterAt(w, p).row)])
    case Delete(p) =>
      && WriterAt(w, p).Inserted?
      && t == w.(cache := w.cache - {CurrentOf(WriterAt(w, p).row.key)},
                 writers := w.writers[p := Deleted(WriterAt(w, p).row)])
    case DeleteList(p) =>
      WriterAt(w, p).Deleted? && t == w.(cache := w.cache - {KeyList}, writers := w.writers[p := Ready])
  }

  ghost predicate Behaviour(timeout: int, trace: seq<World>, events: seq<Event>) {
    |trace| == |events| + 1 && forall i | 0 <= i < |events| :: Next(timeout, trace[i], events[i], trace[i + 1])
  }

  ghost predicate Init(w: World) {
    w.cache == map[] && w.readers == map[] && w.writers == map[]
  }

  /** The value that a call asking for the slot gets at this event, if the event ends such a call. */
  function Answer(w: World, e: Event, slot: Slot): Option<Value> {
    match e
    case Hit(_, k, v) => if k == slot then Some(v) else None
    case Fill(r) =>
      if ReaderAt(w, r).Holding? && ReaderAt(w, r).wanted == slot then Some(ReaderAt(w, r).value) else None
    case _ => None
  }

  // --------------------------------------------------------- bounded staleness

  /** When a reader holds a value, it read it from the table at some earlier step. */
  lemma {:induction false} HeldWasRead(timeout: int, trace: seq<World>, events: seq<Event>, i: nat, r: nat)
    returns (j: nat)
    requires Behaviour(timeout, trace, events) && Init(trace[0]) && i < |trace| && ReaderAt(trace[i], r).Holding?
    ensures var h := ReaderAt(trace[i], r);
      && j < i && events[j] == Read(r, h.value)
      && ReaderAt(trace[j], r) == Missed(h.wanted) && IsLatest(trace[j].table, h.wanted, h.value)
    ensures forall n | j < n <= i :: ReaderAt(trace[n], r) == ReaderAt(trace[i], r)
  {
    assert Next(timeout, trace[i - 1], events[i - 1], trace[i]);
    if ReaderAt(trace[i - 1], r) == ReaderAt(trace[i], r) {
      j := HeldWasRead(timeout, trace, events, i - 1, r);
    } else {
      j := i - 1;
    }
  }

  lemma {:induction false} CachedWasFilled(timeout: int, trace: seq<World>, events: seq<Event>, i: nat, slot: Slot)
    returns (m: nat, r: nat)
    requires Behaviour(timeout, trace, events) && Init(trace[0]) && i < |trace| && slot in trace[i].cache
    ensures m < i && events[m] == Fill(r) && ReaderAt(trace[m], r) == Holding(slot, trace[i].cache[slot].value)
    ensures trace[i].cache[slot].expires == trace[m].clock + timeout
  {
    assert Next(timeout, trace[i - 1], events[i - 1], trace[i]);
    if Lookup(trace[i - 1].cache, slot) == Lookup(trace[i].cache, slot) {
      assert slot in trace[i - 1].cache;
      m, r := CachedWasFilled(timeout, trace, events, i - 1, slot);
    } else {
      m, r := i - 1, events[i - 1].reader;
    }
  }

  /**
   * Every hit, on the entry of a key or on the key list, returns what the table answered
   * less than the timeout plus the filling reader's own delay ago, the delay being the
   * time from its read to its fill.
   */
  lemma HitIsRecent(timeout: int, trace: seq<World>, events: seq<Event>, i: nat)
    requires Behaviour(timeout, trace, events) && Init(trace[0]) && i < |events| && events[i].Hit?
    ensures exists j, m ::
      && 0 <= j < m < i
      && IsLatest(trace[j].table, events[i].slot, events[i].value)
      && events[j].Read? && events[m] == Fill(events[j].reader)
      && (forall n | j < n <= m :: ReaderAt(trace[n], events[j].reader) == Holding(events[i].slot, events[i].value))
      && trace[i].clock - trace[j].clock < timeout + (trace[m].clock - trace[j].clock)
  {
    assert Next(timeout, trace[i], events[i], trace[i + 1]);
    var m, r := CachedWasFilled(timeout, trace, events, i, events[i].slot);
    var j := HeldWasRead(timeout, trace, events, m, r);
    assert events[j].reader == r;
  }

  // ------------------------------------------------------------ after a delete

  /** The entries that saving a row makes out of date. */
  predicate Concerns(slot: Slot, row: Row) {
    slot == CurrentOf(row.key) || slot == KeyList
  }

  /** The value is the row or a newer one, or a list that has the row's key. */
  predicate Reflects(v: Value, row: Row) {
    match v
    case Newest(r) => r.Some? && r.value.changeDate >= row.changeDate
    case Listing(keys) => row.key in keys
  }

  /** No caller still holds a value for the entry that does not reflect the row. */
  ghost predicate NoOlderReader(w: World, slot: Slot, row: Row) {
    forall r <- w.readers ::
      w.readers[r].Holding? && w.readers[r].wanted == slot ==> Reflects(w.readers[r].value, row)
  }

  ghost predicate Fresh(w: World, slot: Slot, row: Row) {
    row in w.table && NoOlderReader(w, slot, row) && (slot in w.cache ==> Reflects(w.cache[slot].value, row))
  }

  lemma LatestReflects(table: seq<Row>, slot: Slot, v: Value, row: Row)
    requires Concerns(slot, row) && row in table && IsLatest(table, slot, v)
    ensures Reflects(v, row)
  {
  }

  lemma NextKeepsFresh(timeout: int, w: World, e: Event, t: World, slot: Slot, row: Row)
    requires Next(timeout, w, e, t) && Concerns(slot, row) && Fresh(w, slot, row)
    ensures Fresh(t, slot, row)
    ensures var a := Answer(w, e, slot); a.Some? ==> Reflects(a.value, row)
  {
    match e
    case Fill(r) => assert r in w.readers;
    case Read(r, v) => if ReaderAt(w, r).slot == slot { LatestReflects(w.table, slot, v, row); }
    case _ =>
  }

  lemma {:induction false} FreshForever(
      timeout: int, trace: seq<World>, events: seq<Event>, slot: Slot, row: Row, i: nat)
    requires Behaviour(timeout, trace, events) && Concerns(slot, row) && Fresh(trace[0], slot, row) && i < |trace|
    ensures Fresh(trace[i], slot, row)
  {
    if i > 0 {
      FreshForever(timeout, trace, events, slot, row, i - 1);
      assert Next(timeout, trace[i - 1], events[i - 1], trace[i]);
      NextKeepsFresh(timeout, trace[i - 1], events[i - 1], trace[i], slot, row);
    }
  }

  /** Whatever happens from `w` on, calls that ask for the entry get what reflects the row. */
  ghost predicate SafeFrom(timeout: int, w: World, slot: Slot, row: Row) {
    forall trace, events, i |
      && Behaviour(timeout, trace, events) && trace[0] == w
      && 0 <= i < |events| && Answer(trace[i], events[i], slot).Some? ::
      Reflects(Answer(trace[i], events[i], slot).value, row)
  }

  /** With the row in the table and the entry gone, safety is that no older reader is left. */
  lemma ClearedIsSafe(timeout: int, t: World, slot: Slot, row: Row)
    requires Concerns(slot, row) && row in t.table && slot !in t.cache
    ensures SafeFrom(timeout, t, slot, row) <==> NoOlderReader(t, slot, row)
  {
    if NoOlderReader(t, slot, row) {
      forall trace, events, i |
        && Behaviour(timeout, trace, events) && trace[0] == t
        && 0 <= i < |events| && Answer(trace[i], events[i], slot).Some?
        ensures Reflects(Answer(trace[i], events[i], slot).value, row)
      {
        FreshForever(timeout, trace, events, slot, row, i);
        assert Next(timeout, trace[i], events[i], trace[i + 1]);
        NextKeepsFresh(timeout, trace[i], events[i], trace[i + 1], slot, row);
      }
    } else {
      var r :| && r in t.readers && t.readers[r].Holding? && t.readers[r].wanted == slot
               && !Reflects(t.readers[r].value, row);
      var u := t.(readers := t.readers[r := Idle],
                  cache := t.cache[slot := Entry(t.readers[r].value, t.clock + timeout)]);
      var trace, events := [t, u], [Fill(r)];
      assert Next(timeout, trace[0], events[0], trace[1]);
      assert Behaviour(timeout, trace, events);
      assert Answer(trace[0], events[0], slot) == Some(t.readers[r].value);
    }
  }

  /** The entry that an event of a save deletes. */
  function Cleared(w: World, e: Event): Option<Slot> {
    match e
    case Delete(p) => if WriterAt(w, p).Inserted? then Some(CurrentOf(WriterAt(w, p).row.key)) else None
    case DeleteList(p) => if WriterAt(w, p).Deleted? then Some(KeyList) else None
    case _ => None
  }

  /**
   * Once a save has deleted an entry, that of its key or the key list, every later answer
   * from it reflects the saved row exactly when no caller is left holding an older value.
   */
  lemma DeleteMakesSafe(timeout: int, w: World, e: Event, t: World)
    requires Next(timeout, w, e, t) && Cleared(w, e).Some? && WriterAt(w, e.writer).row in w.table
    ensures var slot, row := Cleared(w, e).value, WriterAt(w, e.writer).row;
      SafeFrom(timeout, t, slot, row) <==> NoOlderReader(t, slot, row)
  {
    ClearedIsSafe(timeout, t, Cleared(w, e).value, WriterAt(w, e.writer).row);
  }

  /** The row a writer has inserted stays in the table until its deletes, and after. */
  lemma {:induction false} InsertedIsInTable(timeout: int, trace: seq<World>, events: seq<Event>, i: nat, p: nat)
    requires Behaviour(timeout, trace, events) && Init(trace[0]) && i < |trace|
    requires WriterAt(trace[i], p).Inserted? || WriterAt(trace[i], p).Deleted?
    ensures WriterAt(trace[i], p).row in trace[i].table
  {
    assert Next(timeout, trace[i - 1], events[i - 1], trace[i]);
    if WriterAt(trace[i - 1], p).Inserted? || WriterAt(trace[i - 1], p).Deleted? {
      InsertedIsInTable(timeout, trace, events, i - 1, p);
    }
  }

  /**
   * The same for a save anywhere in a behaviour from an idle start: from its delete of an
   * entry on, no call gets from it anything that does not reflect the saved row, exactly
   * when no caller is left holding an older value at that point.
   */
  lemma SaveIsSeen(timeout: int, trace: seq<World>, events: seq<Event>, m: nat)
    requires Behaviour(timeout, trace, events) && Init(trace[0]) && m < |events|
    requires Cleared(trace[m], events[m]).Some?
    ensures var slot, row := Cleared(trace[m], events[m]).value, WriterAt(trace[m], events[m].writer).row;
      SafeFrom(timeout, trace[m + 1], slot, row) <==> NoOlderReader(trace[m + 1], slot, row)
  {
    assert Next(timeout, trace[m], events[m], trace[m + 1]);
    InsertedIsInTable(timeout, trace, events, m, events[m].writer);
    DeleteMakesSafe(timeout, trace[m], events[m], trace[m + 1]);
  }

  /**
   * The leftover reader also harms others: after its fill, a caller that starts only then
   * is answered with the older value from the cache.
   */
  lemma OlderReaderPoisonsCache(timeout: int, t: World, slot: Slot, row: Row, r: nat, s: nat)
    requires timeout > 0 && r in t.readers && t.readers[r].Holding? && t.readers[r].wanted == slot
    requires !Reflects(t.readers[r].value, row) && ReaderAt(t, s) == Idle
    ensures exists trace, events ::
      && Behaviour(timeout, trace, events) && trace[0] == t && |events| == 2
      && events[1] == Hit(s, slot, t.readers[r].value)
      && Answer(trace[1], events[1], slot).Some? && !Reflects(Answer(trace[1], events[1], slot).value, row)
  {
    var u := t.(readers := t.readers[r := Idle],
                cache := t.cache[slot := Entry(t.readers[r].value, t.clock + timeout)]);
    var trace, events := [t, u, u], [Fill(r), Hit(s, slot, t.readers[r].value)];
    assert Next(timeout, trace[0], events[0], trace[1]);
    assert Next(timeout, trace[1], events[1], trace[2]);
    assert Behaviour(timeout, trace, events);
  }

  /**
   * Between its two deletes a save is seen in `current` but perhaps not in the key list: a
   * call may still be answered with a list from before, which lacks the key.
   */
  lemma ListLagsBehind(timeout: int, w: World, p: nat, r: nat)
    requires WriterAt(w, p).Deleted? && Live(w, KeyList) && !Reflects(w.cache[KeyList].value, WriterAt(w, p).row)
    requires ReaderAt(w, r) == Idle
    ensures !SafeFrom(timeout, w, KeyList, WriterAt(w, p).row)
  {
    var v := w.cache[KeyList].value;
    var trace, events := [w, w], [Hit(r, KeyList, v)];
    assert Next(timeout, trace[0], events[0], trace[1]);
    assert Behaviour(timeout, trace, events);
    assert Answer(trace[0], events[0], KeyList) == Some(v);
  }
}
