/**
 * What an indexing run leaves in the search engine, how an incremental run compares with
 * a full one, and which items carry a group restriction.
 */
module CoursewareResults {
  import opened Common
  import opened CoursewareTree
  import opened CoursewareWalk
  import opened CoursewareGroups

  // ------------------------------------------------- restriction is downward closed

  predicate NonEmptyGroups(groups: Groups) {
    forall k <- groups :: groups[k] != []
  }

  /** `chain` leads down from `item` through published children. */
  ghost predicate PublishedPath(item: Item, chain: seq<Item>)
    decreases |chain|
  {
    chain != [] ==> chain[0] in Kids(item) && chain[0].published && PublishedPath(chain[0], chain[1..])
  }

  function PathEnd(above: seq<Item>, item: Item, chain: seq<Item>): Node
    decreases |chain|
  {
    if chain == [] then Node(above, item) else PathEnd(above + [item], chain[0], chain[1..])
  }

  /**
   * If a run writes an item with content groups, then it writes every published item
   * below it, and writes it with content groups too.
   */
  lemma {:induction false} RestrictionIsDownwardClosed(
      run: Run, start: Groups, above: seq<Item>, item: Item, chain: seq<Item>)
    requires NonEmptyGroups(start) && PublishedPath(item, chain)
    requires Writes(run, Node(above, item)) && Restricted(DocOf(run, start, Node(above, item)))
    ensures var n := PathEnd(above, item, chain);
      && Writes(run, n)
      && Restricted(DocOf(run, start, n))
      && (Node(above, item) in CourseNodes(run.course) ==> n in CourseNodes(run.course))
    decreases |chain|
  {
    if chain != [] {
      var c, below := chain[0], above + [item];
      RestrictedAbove(run, start, above, item, c);
      if Node(above, item) in CourseNodes(run.course) {
        NodesAreClosed(run.course, Node(above, item), c);
      }
      RestrictionIsDownwardClosed(run, start, below, c, chain[1..]);
    }
  }

  lemma {:induction false} RestrictedMeansReported(run: Run, start: Groups, n: Node)
    requires Indexable(n.item)
    ensures var r := Reported(run, start, n.above, n.item);
      Restricted(DocOf(run, start, n)) <==> r.Some? && r.value != []
    ensures DocId(DocOf(run, start, n)) == n.item.id
  {
  }

  lemma {:induction false} ReportedBelow(run: Run, start: Groups, above: seq<Item>, item: Item, c: Item)
    requires c in Kids(item) && c.published && Reported(run, start, above, item).Some?
    ensures Reported(run, start, above + [item], c).Some?
  {
  }

  lemma {:induction false} ReportedIsWritten(run: Run, start: Groups, above: seq<Item>, item: Item)
    requires NonEmptyGroups(start) && Reported(run, start, above, item).Some?
    ensures Writes(run, Node(above, item)) && Reported(run, start, above, item).value != []
  {
    assert Reported(run, start, above, item) == GroupsOf(start, above, item);
  }

  lemma RestrictedAbove(run: Run, start: Groups, above: seq<Item>, item: Item, c: Item)
    requires NonEmptyGroups(start) && c in Kids(item) && c.published
    requires Writes(run, Node(above, item)) && Restricted(DocOf(run, start, Node(above, item)))
    ensures var n := Node(above + [item], c); Writes(run, n) && Restricted(DocOf(run, start, n))
  {
    RestrictedMeansReported(run, start, Node(above, item));
    ReportedBelow(run, start, above, item, c);
    ReportedIsWritten(run, start, above + [item], c);
    RestrictedMeansReported(run, start, Node(above + [item], c));
  }

  lemma {:induction false} ChainExtends(items: seq<Item>, every: bool, chain: seq<Item>, c: Item)
    requires Chain(items, every, chain)
    requires c in Kids(chain[|chain| - 1]) && c.published && !Ignored(c)
    ensures Chain(items, every, chain + [c])
    decreases |chain|
  {
    if |chain| == 1 {
      assert (chain + [c])[1..] == [c];
    } else {
      assert (chain + [c])[1..] == chain[1..] + [c];
      ChainExtends(Kids(chain[0]), false, chain[1..], c);
    }
  }

  lemma NodesAreClosed(course: Course, n: Node, c: Item)
    requires n in CourseNodes(course) && c in Kids(n.item) && c.published && !Ignored(c)
    ensures Node(n.above + [n.item], c) in CourseNodes(course)
  {
    NodesAreChains([], course.children, true, n);
    assert n.above[0..] == n.above;
    ChainExtends(course.children, true, n.above + [n.item], c);
    var m := Node(n.above + [n.item], c);
    assert m.above[0..] == m.above;
    NodesAreChains([], course.children, true, m);
  }

  // ------------------------------------------------ groups of an incremental run

  /** At or below the item there is one with published children and a subtree older than the reindex age. */
  predicate StaleBelow(run: Run, item: Item) {
    exists c <- Kids(item) :: 
      && c.published
      && ((run.triggeredAt.Some? && run.triggeredAt.value - item.subtreeEditedOn > run.reindexAge)
          || StaleBelow(run, c))
  }

  /** An incremental run reports the groups of the full run, or none exactly above skipped items. */
  lemma {:induction false} IncrementalReports(run: Run, start: Groups, above: seq<Item>, item: Item)
    requires !Skipped(run, above)
    ensures Reported(run, start, above, item)
         == if StaleBelow(run, item) then None else Reported(Full(run), start, above, item)
    decreases item
  {
    var below := above + [item];
    SkippedBelow(run, above, item);
    forall c | c in Kids(item) && c.published
      ensures Reported(run, start, below, c)
           == if Stale(run, item) || StaleBelow(run, c) then None else Reported(Full(run), start, below, c)
    {
      if !Stale(run, item) { IncrementalReports(run, start, below, c); }
    }
  }

  // ---------------------------------------------------------------- the store

  /** The search engine's documents, by id. */
  type Store = map<string, Document>

  predicate Filed(store: Store) {
    forall id <- store :: DocId(store[id]) == id
  }

  function Upsert(store: Store, docs: seq<Document>): Store
    decreases docs
  {
    if docs == [] then store else Upsert(store[DocId(docs[0]) := docs[0]], docs[1..])
  }

  predicate Matches(d: Document, fields: map<string, Value>) {
    forall f <- fields :: Lookup(d, f) == Some(fields[f])
  }

  function Pruned(store: Store, fields: map<string, Value>, keep: set<string>): Store {
    map id <- store | Matches(store[id], fields) ==> id in keep :: store[id]
  }

  /** The store after a run: write the batch, then drop the structure's documents not kept. */
  function StoreAfter(run: Run, start: Groups, store: Store): Store {
    var s := WalkCourse(run, start);
    Pruned(Upsert(store, s.docs), run.course.location, s.keep)
  }

  lemma {:induction false} UpsertElsewhere(store: Store, docs: seq<Document>, id: string)
    requires forall d <- docs :: DocId(d) != id
    ensures Lookup(Upsert(store, docs), id) == Lookup(store, id)
    decreases docs
  {
    if docs != [] { UpsertElsewhere(store[DocId(docs[0]) := docs[0]], docs[1..], id); }
  }

  lemma {:induction false} WrittenNode(run: Run, start: Groups, nodes: seq<Node>, d: Document) returns (n: Node)
    requires d in Written(run, start, nodes)
    ensures n in nodes && Writes(run, n) && d == DocOf(run, start, n) && DocId(d) == n.item.id
  {
    n := nodes[0];
    if Writes(run, n) && d == DocOf(run, start, n) {
      RestrictedMeansReported(run, start, n);
    } else {
      n := WrittenNode(run, start, nodes[1..], d);
    }
  }

  ghost predicate DistinctDocs(docs: seq<Document>) {
    forall i, j | 0 <= i < j < |docs| :: DocId(docs[i]) != DocId(docs[j])
  }

  lemma {:induction false} UpsertAt(store: Store, docs: seq<Document>, d: Document)
    requires DistinctDocs(docs) && d in docs
    ensures Lookup(Upsert(store, docs), DocId(d)) == Some(d)
    decreases docs
  {
    if d == docs[0] {
      UpsertElsewhere(store[DocId(d) := d], docs[1..], DocId(d));
    } else {
      UpsertAt(store[DocId(docs[0]) := docs[0]], docs[1..], d);
    }
  }

  lemma {:induction false} CountDistinct(docs: seq<Document>)
    requires DistinctDocs(docs)
    ensures |docs| == |set d <- docs :: DocId(d)|
  {
    if docs != [] {
      CountDistinct(docs[1..]);
      assert (set d <- docs :: DocId(d)) == {DocId(docs[0])} + set d <- docs[1..] :: DocId(d);
    }
  }

  lemma {:induction false} WrittenIsDistinct(run: Run, start: Groups, nodes: seq<Node>)
    requires DistinctIds(nodes)
    ensures DistinctDocs(Written(run, start, nodes))
  {
    if nodes != [] {
      var rest := Written(run, start, nodes[1..]);
      WrittenIsDistinct(run, start, nodes[1..]);
      if Writes(run, nodes[0]) {
        var first := DocOf(run, start, nodes[0]);
        RestrictedMeansReported(run, start, nodes[0]);
        forall d | d in rest ensures DocId(d) != DocId(first) {
          var m := WrittenNode(run, start, nodes[1..], d);
        }
        NewDocIsDistinct(first, rest);
      }
    }
  }

  lemma NewDocIsDistinct(first: Document, rest: seq<Document>)
    requires DistinctDocs(rest) && forall d <- rest :: DocId(d) != DocId(first)
    ensures DistinctDocs([first] + rest)
  {
  }

  lemma {:induction false} WrittenHas(run: Run, start: Groups, nodes: seq<Node>, n: Node)
    requires n in nodes && Writes(run, n)
    ensures DocOf(run, start, n) in Written(run, start, nodes)
  {
    if n != nodes[0] { WrittenHas(run, start, nodes[1..], n); }
  }

  ghost predicate Sound(course: Course) {
    DistinctAll(course.children) && DistinctIds(CourseNodes(course))
  }

  lemma {:induction false} AfterRun(run: Run, start: Groups, store: Store)
    requires Sound(run.course)
    ensures var nodes := CourseNodes(run.course);
      StoreAfter(run, start, store)
        == Pruned(Upsert(store, Written(run, start, nodes)), run.course.location, Ids(nodes))
  {
    WalkIsLocal(run, start);
    SweepKeeps(run, [], run.course.children, true, false, start);
  }

  lemma {:induction false} NotWritten(run: Run, start: Groups, nodes: seq<Node>, store: Store, id: string)
    requires forall n <- nodes :: n.item.id == id ==> !Writes(run, n)
    ensures Lookup(Upsert(store, Written(run, start, nodes)), id) == Lookup(store, id)
  {
    forall d | d in Written(run, start, nodes) ensures DocId(d) != id {
      var m := WrittenNode(run, start, nodes, d);
    }
    UpsertElsewhere(store, Written(run, start, nodes), id);
  }

  lemma SameId(nodes: seq<Node>, m: Node, n: Node)
    requires DistinctIds(nodes) && m in nodes && n in nodes && m.item.id == n.item.id
    ensures m == n
  {
  }

  /** The document a run leaves for a node: its own if the run writes the node, else the old one. */
  lemma NodeOutcome(run: Run, start: Groups, store: Store, n: Node)
    requires Sound(run.course) && n in CourseNodes(run.course)
    ensures Lookup(StoreAfter(run, start, store), n.item.id)
         == if Writes(run, n) then Some(DocOf(run, start, n)) else Lookup(store, n.item.id)
  {
    var nodes := CourseNodes(run.course);
    AfterRun(run, start, store);
    assert n.item.id in Ids(nodes);
    if Writes(run, n) {
      WrittenIsDistinct(run, start, nodes);
      WrittenHas(run, start, nodes, n);
      RestrictedMeansReported(run, start, n);
      UpsertAt(store, Written(run, start, nodes), DocOf(run, start, n));
    } else {
      forall m | m in nodes && m.item.id == n.item.id ensures !Writes(run, m) { SameId(nodes, m, n); }
      NotWritten(run, start, nodes, store, n.item.id);
    }
  }

  /** Every document of the batch has one of the ids to keep. */
  lemma {:induction false} SweepDocsAreKept(
      run: Run, above: seq<Item>, items: seq<Item>, every: bool, skip: bool, groups: Groups, d: Document)
    requires d in VisitAll(run, above, items, every, skip, groups).docs
    ensures DocId(d) in VisitAll(run, above, items, every, skip, groups).keep
    decreases items, 0
  {
    if every || items[0].published {
      var v := VisitItem(run, above, items[0], skip, groups);
      if d in v.docs {
        VisitDocsAreKept(run, above, items[0], skip, groups, d);
      } else {
        SweepDocsAreKept(run, above, items[1..], every, skip, v.groups, d);
      }
    } else {
      SweepDocsAreKept(run, above, items[1..], every, skip, groups, d);
    }
  }

  lemma {:induction false} VisitDocsAreKept(
      run: Run, above: seq<Item>, item: Item, skip: bool, groups: Groups, d: Document)
    requires d in VisitItem(run, above, item, skip, groups).docs
    ensures DocId(d) in VisitItem(run, above, item, skip, groups).keep
    decreases item, 1
  {
    var below, marked := above + [item], ApplySplit(groups, item);
    if item.hasChildren && d in VisitAll(run, below, item.children, false, skip || Stale(run, item), marked).docs {
      SweepDocsAreKept(run, below, item.children, false, skip || Stale(run, item), marked, d);
    }
  }

  /** Other ids: documents of the structure are dropped, all others stay as they were. */
  lemma OtherOutcome(run: Run, start: Groups, store: Store, id: string)
    requires id !in Ids(CourseNodes(run.course))
    ensures var location := run.course.location;
      Lookup(StoreAfter(run, start, store), id)
        == if id in store && exists f <- location :: Lookup(store[id], f) != Some(location[f])
           then Some(store[id]) else None
  {
    var s := WalkCourse(run, start);
    SweepKeeps(run, [], run.course.children, true, false, start);
    forall d | d in s.docs ensures DocId(d) != id {
      SweepDocsAreKept(run, [], run.course.children, true, false, start, d);
    }
    UpsertElsewhere(store, s.docs, id);
  }

  /**
   * After any run every document of the structure that is left belongs to a visited
   * node, and documents of other structures are as before. With distinct locations and
   * ids, the count is the number of distinct documents written.
   */
  lemma StoreIsPruned(run: Run, start: Groups, store: Store)
    ensures var after := StoreAfter(run, start, store); var ids := Ids(CourseNodes(run.course));
            var docs := WalkCourse(run, start).docs;
      && (forall id <- after | Matches(after[id], run.course.location) :: id in ids)
      && (forall id <- store | id !in ids && !Matches(store[id], run.course.location) ::
            Lookup(after, id) == Some(store[id]))
      && (Sound(run.course) ==> |docs| == |set d <- docs :: DocId(d)|)
  {
    forall id | id !in Ids(CourseNodes(run.course))
      ensures Lookup(StoreAfter(run, start, store), id)
           == if id in store && !Matches(store[id], run.course.location) then Some(store[id]) else None
    {
      OtherOutcome(run, start, store, id);
    }
    if Sound(run.course) {
      WalkIsLocal(run, start);
      WrittenIsDistinct(run, start, CourseNodes(run.course));
      CountDistinct(WalkCourse(run, start).docs);
    }
  }

  /** If a document has content groups, so has the document of the other node, and this run wrote it. */
  ghost predicate RestrictsAlso(run: Run, after: Store, n: Node, m: Node) {
    && n.item.id in after
    && (Restricted(after[n.item.id]) ==>
          m in CourseNodes(run.course) && Writes(run, m) && m.item.id in after && Restricted(after[m.item.id]))
  }

  /**
   * In the store after any run, full or incremental: when the document that the run wrote
   * for a node has content groups, so have the documents of all published items below it,
   * and the run wrote them too.
   */
  lemma {:induction false} StoredRestrictionIsClosed(run: Run, start: Groups, store: Store, n: Node, chain: seq<Item>)
    requires Sound(run.course) && NonEmptyGroups(start)
    requires n in CourseNodes(run.course) && Writes(run, n) && PublishedPath(n.item, chain)
    ensures RestrictsAlso(run, StoreAfter(run, start, store), n, PathEnd(n.above, n.item, chain))
  {
    var m := PathEnd(n.above, n.item, chain);
    NodeOutcome(run, start, store, n);
    if Restricted(DocOf(run, start, n)) {
      RestrictionIsDownwardClosed(run, start, n.above, n.item, chain);
      NodeOutcome(run, start, store, m);
    }
  }

  // ------------------------------------------------- incremental against full

  ghost predicate AgreeButForGroups(a: Store, b: Store) {
    a.Keys == b.Keys && forall id <- a :: Bare(a[id]) == Bare(b[id])
  }

  function BareDoc(course: Course, n: Node): map<string, Value>
    requires Indexable(n.item)
  {
    Bare(BuildDocument(course, n.above, n.item, None))
  }

  /** The stored document of a node equals, apart from groups, the one a full run writes. */
  ghost predicate UpToDate(course: Course, store: Store, n: Node)
    requires Indexable(n.item)
  {
    n.item.id in store && Bare(store[n.item.id]) == BareDoc(course, n)
  }

  /**
   * An incremental run agrees with the full run, apart from content groups, exactly when
   * every node whose document is out of date has only walked ancestors whose subtrees were
   * edited no longer than the reindex age before the trigger.
   */
  lemma IncrementalRefinesFull(run: Run, start: Groups, store: Store)
    requires Sound(run.course)
    ensures AgreeButForGroups(StoreAfter(run, start, store), StoreAfter(Full(run), start, store)) <==>
      forall n <- CourseNodes(run.course) ::
        Writable(n.item) && !UpToDate(run.course, store, n) && run.triggeredAt.Some? ==>
          forall a <- n.above :: run.triggeredAt.value - a.subtreeEditedOn <= run.reindexAge
  {
    var nodes := CourseNodes(run.course);
    var incr, full := StoreAfter(run, start, store), StoreAfter(Full(run), start, store);
    forall n | n in nodes
      ensures (Lookup(incr, n.item.id).Some? <==> Lookup(full, n.item.id).Some?)
              && (n.item.id in incr && n.item.id in full ==> Bare(incr[n.item.id]) == Bare(full[n.item.id]))
         <==> (Writable(n.item) && !UpToDate(run.course, store, n) ==> !Skipped(run, n.above))
    {
      NodeOutcome(run, start, store, n);
      NodeOutcome(Full(run), start, store, n);
      if Indexable(n.item) {
        BareIgnoresGroups(run.course, n.above, n.item, Reported(run, start, n.above, n.item), None);
        BareIgnoresGroups(run.course, n.above, n.item, Reported(Full(run), start, n.above, n.item), None);
      }
    }
    forall id | id !in Ids(nodes) ensures Lookup(incr, id) == Lookup(full, id) {
      OtherOutcome(run, start, store, id);
      OtherOutcome(Full(run), start, store, id);
    }
    if AgreeButForGroups(incr, full) {
      forall n | n in nodes
        ensures Writable(n.item) && !UpToDate(run.course, store, n) ==> !Skipped(run, n.above)
      {
        assert n.item.id in incr <==> n.item.id in full;
      }
    } else {
      var id :| !((id in incr <==> id in full) && (id in incr && id in full ==> Bare(incr[id]) == Bare(full[id])));
      assert id in Ids(nodes);
      var n :| n in nodes && n.item.id == id;
      assert Writable(n.item) && !UpToDate(run.course, store, n) && Skipped(run, n.above);
    }
  }

  /** The location field of a document holds a name other than the one now shown there. */
  ghost predicate NamedOtherwise(d: map<string, Value>, n: Node, i: nat) {
    && i < Min(3, |n.above| + 1) && "location" in d && d["location"].List? && i < |d["location"].items|
    && d["location"].items[i] != ShownName((n.above + [n.item])[i].displayName)
  }

  /** Renaming one of the three topmost items of its path puts an item's stored document out of date. */
  lemma RenamedIsOutOfDate(course: Course, store: Store, n: Node, i: nat)
    requires Indexable(n.item) && n.item.id in store && NamedOtherwise(store[n.item.id], n, i)
    ensures !UpToDate(course, store, n)
  {
    DocumentFields(course, n.above, n.item, None, ID);
    var bare := BareDoc(course, n);
    assert bare["location"] == BuildDocument(course, n.above, n.item, None)["location"];
    assert Bare(store[n.item.id])["location"] == store[n.item.id]["location"];
  }

  /** The document built before a renaming is named otherwise after it. */
  lemma BuiltBeforeRenaming(course: Course, was: Node, groups: Option<seq<string>>, n: Node, i: nat)
    requires Indexable(was.item) && |was.above| == |n.above| && i < Min(3, |n.above| + 1)
    requires ShownName((was.above + [was.item])[i].displayName) != ShownName((n.above + [n.item])[i].displayName)
    ensures NamedOtherwise(BuildDocument(course, was.above, was.item, groups), n, i)
  {
    DocumentFields(course, was.above, was.item, groups, ID);
  }

  /**
   * After a renaming, an incremental run leaves another store than a full one as soon as
   * some renamed node has a walked ancestor, say a section of the renamed chapter, below
   * which nothing was edited recently.
   */
  lemma RenamingIsMissed(run: Run, start: Groups, store: Store, n: Node, i: nat, stale: Item)
    requires Sound(run.course) && n in CourseNodes(run.course) && Writable(n.item)
    requires n.item.id in store && NamedOtherwise(store[n.item.id], n, i)
    requires stale in n.above && run.triggeredAt.Some?
    requires run.triggeredAt.value - stale.subtreeEditedOn > run.reindexAge
    ensures !AgreeButForGroups(StoreAfter(run, start, store), StoreAfter(Full(run), start, store))
  {
    RenamedIsOutOfDate(run.course, store, n, i);
    IncrementalRefinesFull(run, start, store);
  }

  /**
   * What an incremental run does with one node, by the clock: if no walked ancestor's
   * subtree is older than the reindex age the document is built anew, and if one is the
   * store keeps what it had. Without a trigger time every document is built anew.
   */
  lemma RefreshedByAge(run: Run, start: Groups, store: Store, n: Node)
    requires Sound(run.course) && n in CourseNodes(run.course)
    requires n.item.indexDictionary.Some? && n.item.indexDictionary.value != map[] && !n.item.faulty
    ensures var after := StoreAfter(run, start, store); var was := Lookup(store, n.item.id);
      match run.triggeredAt
      case None => Rebuilt(run.course, after, n)
      case Some(t) =>
        && ((forall a <- n.above :: t - a.subtreeEditedOn <= run.reindexAge) ==> Rebuilt(run.course, after, n))
        && ((exists a <- n.above :: t - a.subtreeEditedOn > run.reindexAge) ==> Lookup(after, n.item.id) == was)
  {
    NodeOutcome(run, start, store, n);
    BareIgnoresGroups(run.course, n.above, n.item, Reported(run, start, n.above, n.item), None);
  }

  /** An item with nothing to index, or whose document cannot be built, keeps what the store had. */
  lemma UnindexableIsKept(run: Run, start: Groups, store: Store, n: Node)
    requires Sound(run.course) && n in CourseNodes(run.course)
    requires n.item.indexDictionary.None? || n.item.indexDictionary.value == map[] || n.item.faulty
    ensures Lookup(StoreAfter(run, start, store), n.item.id) == Lookup(store, n.item.id)
  {
    NodeOutcome(run, start, store, n);
  }

  /** The store holds the node's document as it is built now, apart from content groups. */
  ghost predicate Rebuilt(course: Course, store: Store, n: Node)
    requires Indexable(n.item)
  {
    && n.item.id in store
    && store[n.item.id] - {CONTENT_GROUPS} == BuildDocument(course, n.above, n.item, None) - {CONTENT_GROUPS}
  }

  /**
   * Groups in an incremental run: the document of a written node is that of the full
   * run, except that its groups are null exactly when the node has, at or below it, a
   * stale item with published children.
   */
  lemma {:induction false} IncrementalGroups(run: Run, start: Groups, store: Store, n: Node)
    requires Sound(run.course) && n in CourseNodes(run.course) && Writes(run, n)
    ensures var id := n.item.id;
            var incr, full := StoreAfter(run, start, store), StoreAfter(Full(run), start, store);
      && id in incr && id in full
      && incr[id] == if StaleBelow(run, n.item) then full[id][CONTENT_GROUPS := Null] else full[id]
  {
    var r := Reported(Full(run), start, n.above, n.item);
    NodeOutcome(run, start, store, n);
    NodeOutcome(Full(run), start, store, n);
    IncrementalReports(run, start, n.above, n.item);
    BlankGroups(run.course, n.above, n.item, r);
  }

  lemma BlankGroups(course: Course, above: seq<Item>, item: Item, g: Option<seq<string>>)
    requires Indexable(item)
    ensures BuildDocument(course, above, item, None) == BuildDocument(course, above, item, g)[CONTENT_GROUPS := Null]
  {
  }
}
