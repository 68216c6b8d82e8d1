/** The indexer itself: the search engine, the recursive walk over shared state, and a run. */
module CoursewareIndex {
  import opened Common
  import opened CoursewareTree
  import opened CoursewareWalk
  import opened CoursewareGroups
  import opened CoursewareResults
  import GroupUsage

  /** The contract of the external search engine: documents by id, upsert, exact-match search. */
  class SearchEngine {
    var docs: Store

    constructor ()
      ensures docs == map[]
    {
      docs := map[];
    }

    method Index(sources: seq<Document>)
      requires Filed(docs)
      modifies this
      ensures docs == Upsert(old(docs), sources) && Filed(docs)
    {
      for i := 0 to |sources|
        invariant Filed(docs) && Upsert(docs, sources[i..]) == Upsert(old(docs), sources)
      {
        assert sources[i..][1..] == sources[i + 1..];
        docs := docs[DocId(sources[i]) := sources[i]];
      }
    }

    /** Every document with the given field values whose id is not excluded, in any order. */
    method Search(fields: map<string, Value>, excluded: set<string>) returns (results: seq<Document>)
      requires Filed(docs)
      ensures forall d :: d in results <==>
        DocId(d) in docs && docs[DocId(d)] == d && Matches(d, fields) && DocId(d) !in excluded
    {
      results := [];
      var rest := docs.Keys;
      while rest != {}
        invariant rest <= docs.Keys
        invariant forall d :: d in results <==>
          DocId(d) in docs.Keys - rest && docs[DocId(d)] == d && Matches(d, fields) && DocId(d) !in excluded
        decreases rest
      {
        var id :| id in rest;
        if Matches(docs[id], fields) && id !in excluded { results := results + [docs[id]]; }
        rest := rest - {id};
      }
    }

    method Remove(ids: seq<string>)
      modifies this
      ensures docs == old(docs) - set id <- ids
    {
      for i := 0 to |ids|
        invariant docs == old(docs) - set id <- ids[..i]
      {
        docs := docs - {ids[i]};
      }
    }
  }

  const GENERAL_ERROR := "General indexing error occurred"

  datatype Outcome = NoEngine | Indexed(count: nat) | IndexingError(errors: seq<string>)

  /** The names from the last item of the chain up to position `n`, as the walk collects them. */
  ghost function NamesUp(chain: seq<Item>, n: nat): (names: seq<string>)
    requires n <= |chain|
    ensures |names| == |chain| - n
    ensures forall i | 0 <= i < |names| :: names[i] == ShownName(chain[|chain| - 1 - i].displayName)
    decreases |chain| - n
  {
    if n == |chain| then [] else NamesUp(chain, n + 1) + [ShownName(chain[n].displayName)]
  }

  lemma {:induction false} NamesUpReversed(course: Course, chain: seq<Item>)
    ensures Reverse(NamesUp(chain, 0) + [ShownName(course.displayName)]) == NamePath(course, chain)
  {
  }

  class Indexer {
    const run: Run
    var indexedItems: set<string>
    var itemsIndex: seq<Document>
    var indexedCount: nat
    var groupsUsageInfo: Groups
    var errorList: seq<string>

    constructor (run: Run, usage: Groups)
      ensures this.run == run && groupsUsageInfo == usage
      ensures indexedItems == {} && itemsIndex == [] && indexedCount == 0 && errorList == []
    {
      this.run, groupsUsageInfo := run, usage;
      indexedItems, itemsIndex, indexedCount, errorList := {}, [], 0, [];
    }

    /** Walks from the item up to the course, collecting names, and keeps the top of the path. */
    method SupplementalFields(above: seq<Item>, item: Item) returns (fields: map<string, Value>)
      ensures fields == Supplement(NamePath(run.course, above + [item]))
    {
      var chain := above + [item];
      var path: seq<string> := [];
      var parent := |chain|;
      while parent > 0
        invariant 0 <= parent <= |chain| && path == NamesUp(chain, parent)
      {
        parent := parent - 1;
        path := path + [ShownName(chain[parent].displayName)];
      }
      path := path + [ShownName(run.course.displayName)];
      NamesUpReversed(run.course, chain);
      path := Reverse(path);
      fields := map["course_name" := Text(path[0]), "location" := List(path[1..][..Min(3, |path| - 1)])];
    }

    /** Rewrites the groups of the children of a split test, and of their components. */
    method AssignSplitGroups(item: Item)
      requires item.splitTest
      modifies this`groupsUsageInfo
      ensures groupsUsageInfo == ApplySplit(old(groupsUsageInfo), item)
    {
      var children := Kids(item);
      for i := 0 to |children|
        invariant MarkAll(groupsUsageInfo, item, children[i..]) == ApplySplit(old(groupsUsageInfo), item)
      {
        assert children[i..][1..] == children[i + 1..];
        AssignChildGroup(item, children[i]);
      }
    }

    method AssignChildGroup(item: Item, child: Item)
      modifies this`groupsUsageInfo
      ensures groupsUsageInfo == Mark(old(groupsUsageInfo), child, Pick(item, child))
    {
      if item.partition.None? { return; }
      var groups := item.partition.value;
      for j := 0 to |groups|
        invariant Mark(groupsUsageInfo, child, LastPick(item, child, groups[j..]))
               == Mark(old(groupsUsageInfo), child, Pick(item, child))
      {
        assert groups[j..][1..] == groups[j + 1..];
        if Picks(item, child, groups[j]) {
          LastMarkWins(groupsUsageInfo, child, groups[j], LastPick(item, child, groups[j + 1..]));
          MarkChild(child, groups[j]);
        }
      }
    }

    method MarkChild(child: Item, group: string)
      modifies this`groupsUsageInfo
      ensures groupsUsageInfo == Mark(old(groupsUsageInfo), child, Some(group))
    {
      groupsUsageInfo := groupsUsageInfo[child.location.key := [group]];
      var components := Kids(child);
      ghost var marked := groupsUsageInfo;
      for i := 0 to |components|
        invariant PutAll(groupsUsageInfo, components[i..], group) == PutAll(marked, components, group)
      {
        assert components[i..][1..] == components[i + 1..];
        groupsUsageInfo := groupsUsageInfo[components[i].location.key := [group]];
      }
      MarkIsPutAll(old(groupsUsageInfo), child, group);
    }

    /** What the run has gathered so far. */
    ghost function Gathered(): Sweep
      reads this
    {
      Sweep(groupsUsageInfo, indexedItems, itemsIndex, errorList, false)
    }

    ghost predicate Counted()
      reads this
    {
      indexedCount == |itemsIndex|
    }

    /** Visits an item and everything below it, and returns the groups it was indexed with. */
    method PrepareItemIndex(above: seq<Item>, item: Item, skipIndex: bool)
      returns (itemContentGroups: Option<seq<string>>)
      requires Counted()
      modifies this
      ensures Counted()
      ensures var v := VisitItem(run, above, item, skipIndex, old(groupsUsageInfo));
        itemContentGroups == v.result && Gathered() == Plus(old(Gathered()), AsSweep(v, false))
      decreases item, 1
    {
      if !Indexable(item) && !item.hasChildren { return None; }
      ghost var before := Gathered();
      if item.splitTest { AssignSplitGroups(item); }
      var own := Lookup(groupsUsageInfo, item.location.key);
      ghost var s := SweepBelow(run, above, item, skipIndex, groupsUsageInfo);
      indexedItems := indexedItems + {item.id};
      var hole := false;
      if item.hasChildren {
        var skipChildIndex := skipIndex || Stale(run, item);
        hole := PrepareChildren(above + [item], item.children, skipChildIndex);
      }
      ghost var middle := Plus(before, s.(keep := {item.id} + s.keep, hole := false));
      assert Gathered() == middle;
      itemContentGroups := FinishItem(above, item, skipIndex, if hole then None else own);
      ghost var groups := if s.hole then None else own;
      ghost var f := Finish(run, above, item, skipIndex, groups, Sweep(s.groups, {}, [], [], false));
      assert Gathered() == Sweep(middle.groups, middle.keep, middle.docs + f.docs, middle.errors + f.errors, false);
      FinishSplits(run, above, item, skipIndex, before);
    }

    /** What happens to an item after its children, whose missing groups void its own. */
    method FinishItem(above: seq<Item>, item: Item, skipIndex: bool, groups: Option<seq<string>>)
      returns (itemContentGroups: Option<seq<string>>)
      requires Counted()
      modifies this`itemsIndex, this`indexedCount, this`errorList
      ensures Counted()
      ensures var v := Finish(run, above, item, skipIndex, groups, Sweep(groupsUsageInfo, {}, [], [], false));
        && itemContentGroups == v.result
        && itemsIndex == old(itemsIndex) + v.docs && errorList == old(errorList) + v.errors
    {
      if skipIndex || !Indexable(item) { return None; }
      if item.faulty {
        errorList := errorList + [item.location.key];
        return None;
      }
      AppendDocument(above, item, groups);
      return groups;
    }

    method PrepareChildren(above: seq<Item>, children: seq<Item>, skipIndex: bool) returns (hole: bool)
      requires Counted()
      modifies this
      ensures Counted()
      ensures var s := VisitAll(run, above, children, false, skipIndex, old(groupsUsageInfo));
        hole == s.hole && Gathered() == Plus(old(Gathered()), s.(hole := false))
      decreases children, 0
    {
      var childrenGroupsUsage: seq<Option<seq<string>>> := [];
      ghost var all := VisitAll(run, above, children, false, skipIndex, groupsUsageInfo);
      for i := 0 to |children|
        invariant Counted()
        invariant var rest := VisitAll(run, above, children[i..], false, skipIndex, groupsUsageInfo);
          && Plus(Gathered(), rest.(hole := false)) == Plus(old(Gathered()), all.(hole := false))
          && ((None in childrenGroupsUsage || rest.hole) <==> all.hole)
      {
        assert children[i..][1..] == children[i + 1..];
        if children[i].published {
          ghost var before := Gathered();
          var g := PrepareItemIndex(above, children[i], skipIndex);
          PlusAssociative(before, AsSweep(VisitItem(run, above, children[i], skipIndex, before.groups), false),
            VisitAll(run, above, children[i + 1..], false, skipIndex, groupsUsageInfo).(hole := false));
          childrenGroupsUsage := childrenGroupsUsage + [g];
        }
      }
      hole := None in childrenGroupsUsage;
    }

    method AppendDocument(above: seq<Item>, item: Item, groups: Option<seq<string>>)
      requires Counted() && Indexable(item)
      modifies this`itemsIndex, this`indexedCount
      ensures Counted() && itemsIndex == old(itemsIndex) + [BuildDocument(run.course, above, item, groups)]
    {
      var entry := run.course.location + item.indexDictionary.value;
      entry := entry[ID := Text(item.id)];
      if item.start.Some? { entry := entry["start_date" := Date(item.start.value)]; }
      entry := entry[CONTENT_GROUPS := if groups.Some? && groups.value != [] then List(groups.value) else Null];
      var supplement := SupplementalFields(above, item);
      entry := entry + supplement;
      itemsIndex := itemsIndex + [entry];
      indexedCount := indexedCount + 1;
    }
  }

  function PutAll(m: Groups, items: seq<Item>, group: string): Groups
    decreases items
  {
    if items == [] then m else PutAll(m[items[0].location.key := [group]], items[1..], group)
  }

  lemma {:induction false} PutAllAt(m: Groups, items: seq<Item>, group: string, k: string)
    ensures Lookup(PutAll(m, items, group), k) == if k in Keys(items) then Some([group]) else Lookup(m, k)
    decreases items
  {
    if items != [] {
      PutAllAt(m[items[0].location.key := [group]], items[1..], group, k);
      assert Keys(items) == {items[0].location.key} + Keys(items[1..]);
    }
  }

  lemma SameLookups(a: Groups, b: Groups)
    requires forall k :: Lookup(a, k) == Lookup(b, k)
    ensures a == b
  {
    assert forall k :: k in a ==> Lookup(a, k).Some?;
    assert forall k :: k in b ==> Lookup(b, k).Some?;
  }

  lemma {:induction false} MarkIsPutAll(m: Groups, child: Item, group: string)
    ensures PutAll(m[child.location.key := [group]], Kids(child), group) == Mark(m, child, Some(group))
  {
    var list := [child] + Kids(child);
    forall k ensures Lookup(PutAll(m, list, group), k) == Lookup(Mark(m, child, Some(group)), k) {
      PutAllAt(m, list, group, k);
    }
    SameLookups(PutAll(m, list, group), Mark(m, child, Some(group)));
    assert list[1..] == Kids(child);
  }

  lemma LastMarkWins(m: Groups, child: Item, group: string, later: Option<string>)
    ensures Mark(Mark(m, child, Some(group)), child, later)
         == Mark(m, child, if later.Some? then later else Some(group))
  {
  }

  ghost function Plus(a: Sweep, b: Sweep): Sweep {
    Sweep(b.groups, a.keep + b.keep, a.docs + b.docs, a.errors + b.errors, a.hole || b.hole)
  }

  ghost function AsSweep(v: Visit, hole: bool): Sweep {
    Sweep(v.groups, v.keep, v.docs, v.errors, hole)
  }

  function SweepBelow(run: Run, above: seq<Item>, item: Item, skip: bool, marked: Groups): Sweep {
    if item.hasChildren
    then VisitAll(run, above + [item], item.children, false, skip || Stale(run, item), marked)
    else Sweep(marked, {}, [], [], false)
  }

  /** Finishing an item adds its own document or error to those of its children. */
  lemma {:induction false} FinishSplits(run: Run, above: seq<Item>, item: Item, skip: bool, before: Sweep)
    requires !Ignored(item)
    ensures var v := VisitItem(run, above, item, skip, before.groups);
            var marked := ApplySplit(before.groups, item);
            var own := Lookup(marked, item.location.key);
            var s := SweepBelow(run, above, item, skip, marked);
            var f := Finish(run, above, item, skip, if s.hole then None else own, Sweep(s.groups, {}, [], [], false));
            var m := Plus(before, s.(keep := {item.id} + s.keep, hole := false));
      && f.result == v.result
      && Plus(before, AsSweep(v, false)) == Sweep(m.groups, m.keep, m.docs + f.docs, m.errors + f.errors, before.hole)
  {
    var marked := ApplySplit(before.groups, item);
    var own := Lookup(marked, item.location.key);
    var s := SweepBelow(run, above, item, skip, marked);
    VisitFinishes(run, above, item, skip, before.groups);
    FinishAdds(run, above, item, skip, own, s);
  }

  lemma {:induction false} VisitFinishes(run: Run, above: seq<Item>, item: Item, skip: bool, groups: Groups)
    requires !Ignored(item)
    ensures var marked := ApplySplit(groups, item);
      VisitItem(run, above, item, skip, groups) ==
      Finish(run, above, item, skip, Lookup(marked, item.location.key), SweepBelow(run, above, item, skip, marked))
  {
  }

  lemma FinishAdds(run: Run, above: seq<Item>, item: Item, skip: bool, own: Option<seq<string>>, s: Sweep)
    ensures var f := Finish(run, above, item, skip, if s.hole then None else own, Sweep(s.groups, {}, [], [], false));
      Finish(run, above, item, skip, own, s)
        == Visit(s.groups, {item.id} + s.keep, s.docs + f.docs, s.errors + f.errors, f.result)
  {
  }

  lemma PlusAssociative(a: Sweep, b: Sweep, c: Sweep)
    ensures Plus(Plus(a, b), c) == Plus(a, Plus(b, c))
  {
  }

  /** Drops every document of the structure that is not to remain in the index. */
  method RemoveDeletedItems(searcher: SearchEngine, fields: map<string, Value>, excludeItems: set<string>)
    requires Filed(searcher.docs)
    modifies searcher
    ensures searcher.docs == Pruned(old(searcher.docs), fields, excludeItems)
  {
    var results := searcher.Search(fields, excludeItems);
    var resultIds := seq(|results|, i requires 0 <= i < |results| => DocId(results[i]));
    forall id | id in searcher.docs ensures id in resultIds <==> searcher.docs[id] in results {
      if d :| d in results && d == searcher.docs[id] {
        var i :| 0 <= i < |results| && results[i] == d;
        assert resultIds[i] == id;
      }
    }
    searcher.Remove(resultIds);
  }

  /**
   * One indexing run: the store afterwards is `StoreAfter`, and the outcome is the number
   * of documents written unless some item could not be indexed.
   */
  method IndexCourse(searcher: SearchEngine?, run: Run, usage: Groups) returns (outcome: Outcome)
    requires searcher != null ==> Filed(searcher.docs)
    modifies searcher
    ensures searcher == null ==> outcome == NoEngine
    ensures searcher != null ==> searcher.docs == StoreAfter(run, usage, old(searcher.docs))
    ensures var s := WalkCourse(run, usage);
      searcher != null ==> outcome == if s.errors != [] then IndexingError(s.errors) else Indexed(|s.docs|)
  {
    if searcher == null { return NoEngine; }
    var indexer := new Indexer(run, usage);
    var items := run.course.children;
    ghost var s := WalkCourse(run, usage).(hole := false);
    for i := 0 to |items|
      invariant fresh(indexer) && indexer.run == run && indexer.Counted()
      invariant var rest := VisitAll(run, [], items[i..], true, false, indexer.groupsUsageInfo);
        Plus(indexer.Gathered(), rest.(hole := false)) == s
      invariant searcher.docs == old(searcher.docs)
    {
      assert items[i..][1..] == items[i + 1..];
      ghost var before := indexer.Gathered();
      var _ := indexer.PrepareItemIndex([], items[i], false);
      PlusAssociative(before, AsSweep(VisitItem(run, [], items[i], false, before.groups), false),
        VisitAll(run, [], items[i + 1..], true, false, indexer.groupsUsageInfo).(hole := false));
    }
    assert indexer.itemsIndex == s.docs && indexer.indexedItems == s.keep;
    searcher.Index(indexer.itemsIndex);
    RemoveDeletedItems(searcher, run.course.location, indexer.indexedItems);
    if indexer.errorList != [] { return IndexingError(indexer.errorList); }
    return Indexed(indexer.indexedCount);
  }

  /**
   * `index` as a whole: the groups of a run come from the usage of the course's items, and
   * if that cannot be read nothing is indexed. No starting list of groups is empty, so the
   * documents written keep restrictions closed downwards.
   */
  method Reindex(searcher: SearchEngine?, run: Run, items: seq<GroupUsage.Item>) returns (outcome: Outcome)
    requires searcher != null ==> Filed(searcher.docs)
    modifies searcher
    ensures searcher == null <==> outcome == NoEngine
    ensures searcher != null && (exists item <- items :: !GroupUsage.Readable(item)) ==>
      outcome == IndexingError([GENERAL_ERROR]) && searcher.docs == old(searcher.docs)
    ensures searcher != null && (forall item <- items :: GroupUsage.Readable(item)) ==>
      exists usage: Groups ::
        GroupUsage.IsUsage(items, usage) && searcher.docs == StoreAfter(run, usage, old(searcher.docs))
    ensures searcher != null && (forall item <- items :: GroupUsage.Readable(item)) && Sound(run.course) ==>
      forall n, chain | n in CourseNodes(run.course) && Writes(run, n) && PublishedPath(n.item, chain) ::
        RestrictsAlso(run, searcher.docs, n, PathEnd(n.above, n.item, chain))
  {
    if searcher == null { return NoEngine; }
    var usage := GroupUsage.FetchGroupUsage(items);
    if usage.None? { return IndexingError([GENERAL_ERROR]); }
    outcome := IndexCourse(searcher, run, usage.value);
    if Sound(run.course) {
      forall n, chain | n in CourseNodes(run.course) && Writes(run, n) && PublishedPath(n.item, chain)
        ensures RestrictsAlso(run, searcher.docs, n, PathEnd(n.above, n.item, chain))
      {
        StoredRestrictionIsClosed(run, usage.value, old(searcher.docs), n, chain);
      }
    }
  }
}
