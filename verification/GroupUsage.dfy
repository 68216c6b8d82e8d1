/**
 * Content-group usage, and its inversion into the groups-by-location map that starts an
 * indexing run. Locations stand for the container urls that are built from them and
 * resolved back to them.
 */
module GroupUsage {
  import opened Common

  type Usages = map<string, seq<string>>

  /** `groupAccess` lists the item's (partition, group ids) entries; `parent` may be missing. */
  datatype Item = Item(location: string, parent: Option<string>, groupAccess: seq<(string, seq<string>)>)

  /** Unpacking the access entries as a single pair raises unless there is exactly one. */
  predicate Readable(item: Item) {
    |item.groupAccess| <= 1
  }

  function GroupIds(item: Item): seq<string> {
    if |item.groupAccess| == 1 then item.groupAccess[0].1 else []
  }

  /** What one listing of an item records for each of its groups: its parent, or itself. */
  function Unit(item: Item, own: bool): Option<string> {
    if own then Some(item.location) else item.parent
  }

  // ------------------------------------------------------------------- counting

  function Occurrences(s: seq<string>, x: string): nat {
    if s == [] then 0 else (if s[0] == x then 1 else 0) + Occurrences(s[1..], x)
  }

  lemma {:induction false} OccurrencesConcat(a: seq<string>, b: seq<string>, x: string)
    ensures Occurrences(a + b, x) == Occurrences(a, x) + Occurrences(b, x)
  {
    if a == [] {
      assert a + b == b;
    } else {
      assert (a + b)[1..] == a[1..] + b;
      OccurrencesConcat(a[1..], b, x);
    }
  }

  /** How often group `g` is listed by items that record location `k`. */
  function Recorded(items: seq<Item>, own: bool, g: string, k: string): nat {
    if items == [] then 0
    else
      var item := items[0];
      var here := if own then item.location == k else item.parent == Some(k);
      (if here && |item.groupAccess| == 1 then Occurrences(item.groupAccess[0].1, g) else 0)
      + Recorded(items[1..], own, g, k)
  }

  lemma {:induction false} RecordedSnoc(items: seq<Item>, item: Item, own: bool, g: string, k: string)
    ensures Recorded(items + [item], own, g, k)
         == Recorded(items, own, g, k) + Share(GroupIds(item), Unit(item, own), g, k)
    ensures Mentioned(items + [item], g) <==> Mentioned(items, g) || g in GroupIds(item)
  {
    if items == [] {
      assert items + [item] == [item];
    } else {
      assert (items + [item])[1..] == items[1..] + [item];
      RecordedSnoc(items[1..], item, own, g, k);
    }
  }

  function Uses(usage: Usages, g: string): seq<string> {
    if g in usage then usage[g] else []
  }

  predicate Mentioned(items: seq<Item>, g: string) {
    exists item <- items :: |item.groupAccess| == 1 && g in item.groupAccess[0].1
  }

  // ------------------------------------------------------- group -> locations

  /**
   * Both usage listings, by parent (`own` false) and by item (`own` true).
   * A group that is mentioned gets an entry even if no location can be recorded.
   */
  method UsageInfo(items: seq<Item>, own: bool) returns (r: Option<Usages>)
    ensures r.Some? <==> forall item <- items :: |item.groupAccess| <= 1
    ensures r.Some? ==> forall g :: g in r.value <==> Mentioned(items, g)
    ensures r.Some? ==> forall g, k :: Occurrences(Uses(r.value, g), k) == Recorded(items, own, g, k)
  {
    var usage: Usages := map[];
    for i := 0 to |items|
      invariant forall item <- items[..i] :: Readable(item)
      invariant forall g :: g in usage <==> Mentioned(items[..i], g)
      invariant forall g, k :: Occurrences(Uses(usage, g), k) == Recorded(items[..i], own, g, k)
    {
      var item := items[i];
      assert items[..i + 1] == items[..i] + [item];
      if item.groupAccess != [] {
        if |item.groupAccess| != 1 {
          assert !Readable(item);
          return None;
        }
        usage := RecordItem(item, own, usage);
      }
      forall g, k
        ensures Occurrences(Uses(usage, g), k) == Recorded(items[..i + 1], own, g, k)
      {
        RecordedSnoc(items[..i], item, own, g, k);
      }
      forall g ensures Mentioned(items[..i + 1], g) <==> Mentioned(items[..i], g) || g in GroupIds(item) {
        RecordedSnoc(items[..i], item, own, g, "");
      }
    }
    assert items[..|items|] == items;
    r := Some(usage);
  }

  lemma {:induction false} OccurrencesSnoc(s: seq<string>, y: string, x: string)
    ensures Occurrences(s + [y], x) == Occurrences(s, x) + if y == x then 1 else 0
  {
    OccurrencesConcat(s, [y], x);
  }

  /** `next` has one more `value` at the end of the list of `key`. */
  ghost predicate Appends(last: Usages, next: Usages, key: string, value: string) {
    next == last[key := Uses(last, key) + [value]]
  }

  lemma {:induction false} AppendsOne(last: Usages, next: Usages, key: string, value: string, k: string, x: string)
    requires Appends(last, next, key, value)
    ensures Occurrences(Uses(next, k), x) == Occurrences(Uses(last, k), x) + if k == key && x == value then 1 else 0
  {
    OccurrencesSnoc(Uses(last, key), value, x);
  }

  /** What an item adds to the count of location `k` under group `g`. */
  function Share(ids: seq<string>, unit: Option<string>, g: string, k: string): nat {
    if unit == Some(k) then Occurrences(ids, g) else 0
  }

  lemma ShareSnoc(ids: seq<string>, id: string, unit: Option<string>, g: string, k: string)
    ensures Share(ids + [id], unit, g, k) == Share(ids, unit, g, k) + if unit == Some(k) && id == g then 1 else 0
  {
    OccurrencesSnoc(ids, id, g);
  }

  /** Appends the item's unit to the entry of each of its groups. */
  method RecordItem(item: Item, own: bool, before: Usages) returns (usage: Usages)
    ensures forall g :: g in usage <==> g in before || g in GroupIds(item)
    ensures forall g, k ::
      Occurrences(Uses(usage, g), k) == Occurrences(Uses(before, g), k) + Share(GroupIds(item), Unit(item, own), g, k)
  {
    usage := before;
    var ids, unit := GroupIds(item), Unit(item, own);
    for j := 0 to |ids|
      invariant forall g :: g in usage <==> g in before || g in ids[..j]
      invariant forall g, k ::
        Occurrences(Uses(usage, g), k) == Occurrences(Uses(before, g), k) + Share(ids[..j], unit, g, k)
    {
      ghost var last := usage;
      usage := RecordUnit(usage, ids[j], unit);
      assert ids[..j + 1] == ids[..j] + [ids[j]];
      forall g, k
        ensures Occurrences(Uses(usage, g), k) == Occurrences(Uses(before, g), k) + Share(ids[..j + 1], unit, g, k)
      {
        ShareSnoc(ids[..j], ids[j], unit, g, k);
        if unit.Some? { AppendsOne(last, usage, ids[j], unit.value, g, k); }
      }
    }
    assert ids[..|ids|] == ids;
  }

  method RecordUnit(before: Usages, id: string, unit: Option<string>) returns (usage: Usages)
    ensures usage.Keys == before.Keys + {id}
    ensures unit.Some? ==> Appends(before, usage, id, unit.value)
    ensures unit.None? ==> forall g :: Uses(usage, g) == Uses(before, g)
  {
    usage := before;
    if id !in usage { usage := usage[id := []]; }
    if unit.Some? { usage := usage[id := usage[id] + [unit.value]]; }
  }

  // ------------------------------------------------------- location -> groups

  /** The entries of a dictionary, in some order. */
  ghost predicate Lists(pairs: seq<(string, seq<string>)>, usage: Usages) {
    && (forall i | 0 <= i < |pairs| :: pairs[i].0 in usage && pairs[i].1 == usage[pairs[i].0])
    && (forall i, j | 0 <= i < j < |pairs| :: pairs[i].0 != pairs[j].0)
    && (forall g <- usage :: exists i :: 0 <= i < |pairs| && pairs[i].0 == g)
  }

  method Entries(usage: Usages) returns (pairs: seq<(string, seq<string>)>)
    ensures Lists(pairs, usage)
  {
    pairs := [];
    var rest := usage.Keys;
    while rest != {}
      invariant rest <= usage.Keys
      invariant Lists(pairs, map g <- usage | g !in rest :: usage[g])
    {
      var g :| g in rest;
      ghost var before := pairs;
      ghost var was := map h <- usage | h !in rest :: usage[h];
      pairs := pairs + [(g, usage[g])];
      rest := rest - {g};
      assert pairs[|before|].0 == g;
      forall h | h in usage && h !in rest
        ensures exists i :: 0 <= i < |pairs| && pairs[i].0 == h
      {
        if h != g {
          assert h in was;
          var i :| 0 <= i < |before| && before[i].0 == h;
          assert pairs[i].0 == h;
        }
      }
    }
    assert (map g <- usage | g !in rest :: usage[g]) == usage;
  }

  /** How often `k` occurs in the entries for group `g`. */
  function PairCount(pairs: seq<(string, seq<string>)>, g: string, k: string): nat {
    if pairs == [] then 0
    else (if pairs[0].0 == g then Occurrences(pairs[0].1, k) else 0) + PairCount(pairs[1..], g, k)
  }

  lemma {:induction false} PairCountConcat(
      a: seq<(string, seq<string>)>, b: seq<(string, seq<string>)>, g: string, k: string)
    ensures PairCount(a + b, g, k) == PairCount(a, g, k) + PairCount(b, g, k)
  {
    if a == [] {
      assert a + b == b;
    } else {
      assert (a + b)[1..] == a[1..] + b;
      PairCountConcat(a[1..], b, g, k);
    }
  }

  lemma {:induction false} PairCountAbsent(pairs: seq<(string, seq<string>)>, g: string, k: string)
    requires forall i | 0 <= i < |pairs| :: pairs[i].0 != g
    ensures PairCount(pairs, g, k) == 0
  {
    if pairs != [] { PairCountAbsent(pairs[1..], g, k); }
  }

  lemma {:induction false} PairCountAt(pairs: seq<(string, seq<string>)>, i: nat, k: string)
    requires i < |pairs| && forall a, b | 0 <= a < b < |pairs| :: pairs[a].0 != pairs[b].0
    ensures PairCount(pairs, pairs[i].0, k) == Occurrences(pairs[i].1, k)
  {
    if i == 0 {
      PairCountAbsent(pairs[1..], pairs[0].0, k);
    } else {
      PairCountAt(pairs[1..], i - 1, k);
    }
  }

  lemma {:induction false} PairCountOfEntries(pairs: seq<(string, seq<string>)>, usage: Usages, g: string, k: string)
    requires Lists(pairs, usage)
    ensures PairCount(pairs, g, k) == Occurrences(Uses(usage, g), k)
  {
    if g in usage {
      var i :| 0 <= i < |pairs| && pairs[i].0 == g;
      PairCountAt(pairs, i, k);
    } else {
      PairCountAbsent(pairs, g, k);
    }
  }

  /** Appends each group to the list of every location recorded for it. */
  method Invert(pairs: seq<(string, seq<string>)>) returns (inverse: Usages)
    ensures forall k <- inverse :: inverse[k] != []
    ensures forall g, k :: Occurrences(Uses(inverse, k), g) == PairCount(pairs, g, k)
  {
    inverse := map[];
    for i := 0 to |pairs|
      invariant forall k <- inverse :: inverse[k] != []
      invariant forall g, k :: Occurrences(Uses(inverse, k), g) == PairCount(pairs[..i], g, k)
    {
      assert pairs[..i + 1] == pairs[..i] + [pairs[i]];
      inverse := InvertPair(inverse, pairs[i].0, pairs[i].1);
      forall g, k ensures Occurrences(Uses(inverse, k), g) == PairCount(pairs[..i + 1], g, k) {
        PairCountConcat(pairs[..i], [pairs[i]], g, k);
        assert PairCount([pairs[i]], g, k) == Share(pairs[i].1, Some(pairs[i].0), k, g);
      }
    }
    assert pairs[..|pairs|] == pairs;
  }

  /** Appends one group to the list of every location recorded for it. */
  method InvertPair(before: Usages, name: string, modules: seq<string>) returns (inverse: Usages)
    requires forall k <- before :: before[k] != []
    ensures forall k <- inverse :: inverse[k] != []
    ensures forall g, k ::
      Occurrences(Uses(inverse, k), g) == Occurrences(Uses(before, k), g) + Share(modules, Some(name), k, g)
  {
    inverse := before;
    for j := 0 to |modules|
      invariant forall k <- inverse :: inverse[k] != []
      invariant forall g, k ::
        Occurrences(Uses(inverse, k), g) == Occurrences(Uses(before, k), g) + Share(modules[..j], Some(name), k, g)
    {
      ghost var last := inverse;
      var key := modules[j];
      if key in inverse && inverse[key] != [] {
        inverse := inverse[key := inverse[key] + [name]];
      } else {
        inverse := inverse[key := [name]];
      }
      assert key !in last ==> Uses(last, key) + [name] == [name];
      assert modules[..j + 1] == modules[..j] + [key];
      forall g, k
        ensures Occurrences(Uses(inverse, k), g)
             == Occurrences(Uses(before, k), g) + Share(modules[..j + 1], Some(name), k, g)
      {
        ShareSnoc(modules[..j], key, Some(name), k, g);
        AppendsOne(last, inverse, key, name, k, g);
      }
    }
    assert modules[..|modules|] == modules;
  }

  /**
   * The starting groups of an indexing run: group `g` is listed for location `k` exactly
   * as often as it occurs in the group lists of the items whose parent is `k`, plus those
   * of the items at `k`. No empty list is ever stored.
   */
  ghost predicate IsUsage(items: seq<Item>, usage: Usages) {
    && (forall k <- usage :: usage[k] != [])
    && (forall g, k ::
          Occurrences(Uses(usage, k), g) == Recorded(items, false, g, k) + Recorded(items, true, g, k))
  }

  method FetchGroupUsage(items: seq<Item>) returns (r: Option<Usages>)
    ensures r.Some? <==> forall item <- items :: |item.groupAccess| <= 1
    ensures r.Some? ==> IsUsage(items, r.value)
  {
    var byParent := UsageInfo(items, false);
    if byParent.None? { return None; }
    var byItem := UsageInfo(items, true);
    var a := Entries(byParent.value);
    var b := Entries(byItem.value);
    var inverse := Invert(a + b);
    forall g, k
      ensures Occurrences(Uses(inverse, k), g) == Recorded(items, false, g, k) + Recorded(items, true, g, k)
    {
      PairCountConcat(a, b, g, k);
      PairCountOfEntries(a, byParent.value, g, k);
      PairCountOfEntries(b, byItem.value, g, k);
    }
    r := Some(inverse);
  }
}
