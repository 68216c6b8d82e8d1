/**
 * The content groups of indexed items. The walk overwrites one shared map while it runs;
 * here the outcome is shown to depend, at each item, on the starting map and on the two
 * walked items above it only. Everything else about groups follows from that reading.
 */
module CoursewareGroups {
  import opened Common
  import opened CoursewareTree
  import opened CoursewareWalk

  // ---------------------------------------------------------- distinct locations

  function AllKeys(item: Item): set<string>
    decreases item, 1
  {
    {item.location.key} + if item.hasChildren then AllKeysOf(item.children) else {}
  }

  function AllKeysOf(items: seq<Item>): set<string>
    decreases items, 0
  {
    if items == [] then {} else AllKeys(items[0]) + AllKeysOf(items[1..])
  }

  /** No location occurs twice in the tree, published or not. */
  predicate Distinct(item: Item)
    decreases item, 1
  {
    item.hasChildren ==> item.location.key !in AllKeysOf(item.children) && DistinctAll(item.children)
  }

  predicate DistinctAll(items: seq<Item>)
    decreases items, 0
  {
    items != [] ==>
      Distinct(items[0]) && AllKeys(items[0]) !! AllKeysOf(items[1..]) && DistinctAll(items[1..])
  }

  lemma {:induction false} MemberKeys(items: seq<Item>, c: Item)
    requires c in items
    ensures AllKeys(c) <= AllKeysOf(items)
    ensures DistinctAll(items) ==> Distinct(c)
  {
    if c != items[0] { MemberKeys(items[1..], c); }
  }

  lemma {:induction false} SharedKey(items: seq<Item>, a: Item, b: Item, k: string)
    requires DistinctAll(items) && a in items && b in items && k in AllKeys(a) && k in AllKeys(b)
    ensures a == b
  {
    if a == items[0] {
      if b != items[0] { MemberKeys(items[1..], b); }
    } else if b == items[0] {
      MemberKeys(items[1..], a);
    } else {
      SharedKey(items[1..], a, b, k);
    }
  }

  // -------------------------------------------------- what one split test rewrites

  predicate Touches(child: Item, k: string) {
    k in Keys([child] + Kids(child))
  }

  /** The group that a split test writes under a location, if it writes there. */
  function Label(split: Item, children: seq<Item>, k: string): Option<string> {
    if children == [] then None
    else
      var later := Label(split, children[1..], k);
      if later.None? && Touches(children[0], k) then Pick(split, children[0]) else later
  }

  function LabelBy(split: Item, k: string): Option<string> {
    if split.splitTest then Label(split, Kids(split), k) else None
  }

  function Relabel(pick: Option<string>, before: Option<seq<string>>): Option<seq<string>> {
    if pick.Some? then Some([pick.value]) else before
  }

  lemma {:induction false} MarkAllAt(m: Groups, split: Item, children: seq<Item>, k: string)
    ensures Lookup(MarkAll(m, split, children), k) == Relabel(Label(split, children, k), Lookup(m, k))
    decreases children
  {
    if children != [] {
      MarkAllAt(Mark(m, children[0], Pick(split, children[0])), split, children[1..], k);
    }
  }

  lemma ApplySplitAt(m: Groups, item: Item, k: string)
    ensures Lookup(ApplySplit(m, item), k) == Relabel(LabelBy(item, k), Lookup(m, k))
  {
    MarkAllAt(m, item, Kids(item), k);
  }

  lemma {:induction false} TouchesIsBelow(child: Item, k: string)
    requires Touches(child, k)
    ensures k in AllKeys(child)
  {
    if k != child.location.key {
      var c :| c in Kids(child) && c.location.key == k;
      MemberKeys(child.children, c);
    }
  }

  lemma {:induction false} LabelIsBelow(split: Item, children: seq<Item>, k: string)
    requires k !in AllKeysOf(children)
    ensures Label(split, children, k) == None
  {
    if children != [] {
      LabelIsBelow(split, children[1..], k);
      if Touches(children[0], k) { TouchesIsBelow(children[0], k); }
    }
  }

  /** Among distinct siblings only the one that holds the location can label it. */
  lemma {:induction false} LabelIsPick(split: Item, children: seq<Item>, child: Item, k: string)
    requires DistinctAll(children) && child in children && Touches(child, k)
    ensures Label(split, children, k) == Pick(split, child)
  {
    TouchesIsBelow(child, k);
    if child == children[0] {
      LabelIsBelow(split, children[1..], k);
    } else {
      LabelIsPick(split, children[1..], child, k);
      MemberKeys(children[1..], child);
      if Touches(children[0], k) {
        TouchesIsBelow(children[0], k);
        assert false;
      }
    }
  }

  /** A split test does not reach below its grandchildren. */
  lemma {:induction false} LabelReach(g: Item, p: Item, x: Item, k: string)
    requires Distinct(g) && p in Kids(g) && x in Kids(p) && k in AllKeysOf(Kids(x))
    ensures LabelBy(g, k) == None
  {
    MemberKeys(g.children, p);
    MemberKeys(p.children, x);
    assert k in AllKeys(x) && k in AllKeys(p);
    if Touches(p, k) {
      assert k != p.location.key;
      var r :| r in Kids(p) && r.location.key == k;
      SharedKey(p.children, r, x, k);
      assert false;
    }
    NotTouched(g, g.children, p, k);
  }

  lemma {:induction false} NotTouched(split: Item, children: seq<Item>, p: Item, k: string)
    requires DistinctAll(children) && p in children && k in AllKeys(p) && !Touches(p, k)
    ensures Label(split, children, k) == None
  {
    if p == children[0] {
      LabelIsBelow(split, children[1..], k);
    } else {
      NotTouched(split, children[1..], p, k);
      MemberKeys(children[1..], p);
      if Touches(children[0], k) {
        TouchesIsBelow(children[0], k);
        assert false;
      }
    }
  }

  // ------------------------------------------------------- the local group reading

  function Parent(above: seq<Item>): Option<Item> {
    if |above| >= 1 then Some(above[|above| - 1]) else None
  }

  function Grandparent(above: seq<Item>): Option<Item> {
    if |above| >= 2 then Some(above[|above| - 2]) else None
  }

  function PickBy(split: Option<Item>, child: Option<Item>): Option<string> {
    if split.Some? && child.Some? && split.value.splitTest then Pick(split.value, child.value) else None
  }

  /**
   * The groups of an item: the group its parent picks for it, else the group its
   * grandparent picks for its parent, else its entry in the starting map.
   */
  function GroupsOf(start: Groups, above: seq<Item>, item: Item): Option<seq<string>> {
    Relabel(PickBy(Parent(above), Some(item)),
            Relabel(PickBy(Grandparent(above), Parent(above)), Lookup(start, item.location.key)))
  }

  /** The groups reported to the parent: none when the item, or a published child, reports none. */
  function Reported(run: Run, start: Groups, above: seq<Item>, item: Item): Option<seq<string>>
    decreases item
  {
    if !Writable(item) || Skipped(run, above) then None
    else if exists c <- Kids(item) :: c.published && Reported(run, start, above + [item], c).None? then None
    else GroupsOf(start, above, item)
  }

  predicate Skipped(run: Run, above: seq<Item>) {
    exists a <- above :: Stale(run, a)
  }

  predicate Writes(run: Run, n: Node) {
    Writable(n.item) && !Skipped(run, n.above)
  }

  function DocOf(run: Run, start: Groups, n: Node): Document
    requires Indexable(n.item)
  {
    BuildDocument(run.course, n.above, n.item, Reported(run, start, n.above, n.item))
  }

  /** The documents of the writable nodes without a stale walked ancestor, in order. */
  function Written(run: Run, start: Groups, nodes: seq<Node>): seq<Document> {
    if nodes == [] then []
    else (if Writes(run, nodes[0]) then [DocOf(run, start, nodes[0])] else []) + Written(run, start, nodes[1..])
  }

  lemma {:induction false} WrittenConcat(run: Run, start: Groups, a: seq<Node>, b: seq<Node>)
    ensures Written(run, start, a + b) == Written(run, start, a) + Written(run, start, b)
  {
    if a == [] {
      assert a + b == b;
    } else {
      assert (a + b)[1..] == a[1..] + b;
      WrittenConcat(run, start, a[1..], b);
    }
  }

  lemma SkippedBelow(run: Run, above: seq<Item>, item: Item)
    ensures Skipped(run, above + [item]) == (Skipped(run, above) || Stale(run, item))
  {
    var below := above + [item];
    assert item in below;
    if Skipped(run, above) {
      var a :| a in above && Stale(run, a);
      assert a in below;
    }
  }

  // --------------------------------------------------------- the walk is local

  /** The map entry for a location as the split tests just above leave it. */
  function Above(start: Groups, above: seq<Item>, k: string): Option<seq<string>> {
    var far := if |above| >= 2 then Relabel(LabelBy(above[|above| - 2], k), Lookup(start, k)) else Lookup(start, k);
    if |above| >= 1 then Relabel(LabelBy(above[|above| - 1], k), far) else far
  }

  ghost predicate Linked(above: seq<Item>, item: Item) {
    && (|above| >= 1 ==> Distinct(above[|above| - 1]) && item in Kids(above[|above| - 1]))
    && (|above| >= 2 ==> Distinct(above[|above| - 2]) && above[|above| - 1] in Kids(above[|above| - 2]))
  }

  ghost predicate Ready(groups: Groups, start: Groups, above: seq<Item>, keys: set<string>) {
    forall k <- keys :: Lookup(groups, k) == Above(start, above, k)
  }

  lemma AboveIsLocal(start: Groups, above: seq<Item>, item: Item)
    requires Linked(above, item)
    ensures Above(start, above, item.location.key) == GroupsOf(start, above, item)
  {
    var k := item.location.key;
    if |above| >= 1 {
      var p := above[|above| - 1];
      LabelIsPick(p, Kids(p), item, k);
      if |above| >= 2 {
        var g := above[|above| - 2];
        assert item.location.key in Keys(Kids(p));
        LabelIsPick(g, Kids(g), p, k);
      }
    }
  }

  lemma AboveShifts(start: Groups, above: seq<Item>, item: Item, k: string)
    requires Linked(above, item) && k in AllKeysOf(Kids(item))
    ensures Above(start, above + [item], k) == Relabel(LabelBy(item, k), Above(start, above, k))
  {
    var below := above + [item];
    assert below[|below| - 1] == item;
    if |above| >= 1 { assert below[|below| - 2] == above[|above| - 1]; }
    if |above| >= 2 { LabelReach(above[|above| - 2], above[|above| - 1], item, k); }
  }

  lemma {:induction false} ReadyBelow(groups: Groups, start: Groups, above: seq<Item>, item: Item)
    requires Linked(above, item) && Ready(groups, start, above, AllKeys(item))
    ensures Ready(ApplySplit(groups, item), start, above + [item], AllKeysOf(Kids(item)))
  {
    forall k | k in AllKeysOf(Kids(item))
      ensures Lookup(ApplySplit(groups, item), k) == Above(start, above + [item], k)
    {
      assert k in AllKeys(item);
      ApplySplitAt(groups, item, k);
      AboveShifts(start, above, item, k);
    }
  }

  /** Visiting an item changes the map only below it. */
  lemma {:induction false} VisitFrame(run: Run, above: seq<Item>, item: Item, skip: bool, groups: Groups, k: string)
    requires k !in AllKeys(item)
    ensures Lookup(VisitItem(run, above, item, skip, groups).groups, k) == Lookup(groups, k)
    decreases item, 1
  {
    if !Ignored(item) {
      ApplySplitAt(groups, item, k);
      if item.hasChildren {
        LabelIsBelow(item, item.children, k);
        SweepFrame(run, above + [item], item.children, false, skip || Stale(run, item), ApplySplit(groups, item), k);
      }
    }
  }

  lemma {:induction false} SweepFrame(
      run: Run, above: seq<Item>, items: seq<Item>, every: bool, skip: bool, groups: Groups, k: string)
    requires k !in AllKeysOf(items)
    ensures Lookup(VisitAll(run, above, items, every, skip, groups).groups, k) == Lookup(groups, k)
    decreases items, 0
  {
    if items != [] {
      if every || items[0].published {
        VisitFrame(run, above, items[0], skip, groups, k);
        SweepFrame(run, above, items[1..], every, skip, VisitItem(run, above, items[0], skip, groups).groups, k);
      } else {
        SweepFrame(run, above, items[1..], every, skip, groups, k);
      }
    }
  }

  /** Some visited item of `items` reports no groups. */
  predicate Hole(run: Run, start: Groups, above: seq<Item>, items: seq<Item>, every: bool) {
    exists c <- items :: (every || c.published) && Reported(run, start, above, c).None?
  }

  lemma {:induction false} FinishIsLocal(
      run: Run, start: Groups, above: seq<Item>, item: Item, skip: bool, s: Sweep, kids: seq<Node>)
    requires skip == Skipped(run, above) && !Ignored(item)
    requires s.docs == Written(run, start, kids)
    requires !skip ==> s.hole == Hole(run, start, above + [item], Kids(item), false)
    ensures var v := Finish(run, above, item, skip, GroupsOf(start, above, item), s);
      && v.docs == Written(run, start, kids + [Node(above, item)])
      && v.result == Reported(run, start, above, item)
  {
    var n := Node(above, item);
    WrittenConcat(run, start, kids, [n]);
    assert Written(run, start, [n]) == if Writes(run, n) then [DocOf(run, start, n)] else [];
    assert Hole(run, start, above + [item], Kids(item), false)
      <==> exists c <- Kids(item) :: c.published && Reported(run, start, above + [item], c).None?;
  }

  lemma {:induction false} ReadsOwnGroups(start: Groups, above: seq<Item>, item: Item, groups: Groups)
    requires Linked(above, item) && Distinct(item) && Ready(groups, start, above, AllKeys(item))
    ensures Lookup(ApplySplit(groups, item), item.location.key) == GroupsOf(start, above, item)
  {
    ApplySplitAt(groups, item, item.location.key);
    if item.hasChildren { LabelIsBelow(item, item.children, item.location.key); }
    AboveIsLocal(start, above, item);
  }

  lemma {:induction false} LinkedBelow(above: seq<Item>, item: Item, c: Item)
    requires Linked(above, item) && Distinct(item) && c in Kids(item)
    ensures Linked(above + [item], c)
  {
    var below := above + [item];
    assert below[|below| - 1] == item;
    if |above| >= 1 { assert below[|below| - 2] == above[|above| - 1]; }
  }

  /**
   * The walk with its shared, overwritten map writes the documents, and reports the
   * groups, of the local reading, whatever was walked before.
   */
  lemma {:induction false} VisitIsLocal(
      run: Run, start: Groups, above: seq<Item>, item: Item, skip: bool, groups: Groups)
    requires skip == Skipped(run, above) && Linked(above, item) && Distinct(item)
    requires Ready(groups, start, above, AllKeys(item))
    ensures var v := VisitItem(run, above, item, skip, groups);
      && v.docs == Written(run, start, Nodes(above, item))
      && v.result == Reported(run, start, above, item)
    decreases item, 1
  {
    if !Ignored(item) {
      var below := above + [item];
      var marked := ApplySplit(groups, item);
      ReadsOwnGroups(start, above, item, groups);
      if item.hasChildren {
        SkippedBelow(run, above, item);
        ReadyBelow(groups, start, above, item);
        forall c | c in item.children ensures Linked(below, c) { LinkedBelow(above, item, c); }
        SweepIsLocal(run, start, below, item.children, false, skip || Stale(run, item), marked);
        var s := VisitAll(run, below, item.children, false, skip || Stale(run, item), marked);
        FinishIsLocal(run, start, above, item, skip, s, NodesAll(below, item.children, false));
      } else {
        FinishIsLocal(run, start, above, item, skip, Sweep(marked, {}, [], [], false), []);
      }
    }
  }

  lemma {:induction false} SweepIsLocal(
      run: Run, start: Groups, above: seq<Item>, items: seq<Item>, every: bool, skip: bool, groups: Groups)
    requires skip == Skipped(run, above) && DistinctAll(items) && (forall c <- items :: Linked(above, c))
    requires Ready(groups, start, above, AllKeysOf(items))
    ensures var s := VisitAll(run, above, items, every, skip, groups);
      && s.docs == Written(run, start, NodesAll(above, items, every))
      && s.hole == Hole(run, start, above, items, every)
    decreases items, 0
  {
    if items != [] {
      var next := groups;
      var nodes := NodesAll(above, items[1..], every);
      if every || items[0].published {
        VisitIsLocal(run, start, above, items[0], skip, groups);
        next := VisitItem(run, above, items[0], skip, groups).groups;
        WrittenConcat(run, start, Nodes(above, items[0]), nodes);
        forall k | k in AllKeysOf(items[1..])
          ensures Lookup(next, k) == Lookup(groups, k)
        {
          VisitFrame(run, above, items[0], skip, groups, k);
        }
      }
      SweepIsLocal(run, start, above, items[1..], every, skip, next);
      assert !(every || items[0].published) ==> NodesAll(above, items, every) == nodes;
      assert Hole(run, start, above, items, every) <==>
        ((every || items[0].published) && Reported(run, start, above, items[0]).None?)
        || Hole(run, start, above, items[1..], every);
    }
  }

  /** Order independence for a whole run, full or incremental. */
  lemma {:induction false} WalkIsLocal(run: Run, start: Groups)
    requires DistinctAll(run.course.children)
    ensures WalkCourse(run, start).docs == Written(run, start, CourseNodes(run.course))
  {
    SweepIsLocal(run, start, [], run.course.children, true, false, start);
  }

  // ---------------------------------------------------------------------- errors

  /** The locations of the nodes that a run tries to index and cannot. */
  function Failures(run: Run, nodes: seq<Node>): seq<string> {
    if nodes == [] then []
    else
      (if Indexable(nodes[0].item) && nodes[0].item.faulty && !Skipped(run, nodes[0].above)
       then [nodes[0].item.location.key] else []) + Failures(run, nodes[1..])
  }

  lemma {:induction false} FailuresConcat(run: Run, a: seq<Node>, b: seq<Node>)
    ensures Failures(run, a + b) == Failures(run, a) + Failures(run, b)
  {
    if a == [] {
      assert a + b == b;
    } else {
      assert (a + b)[1..] == a[1..] + b;
      FailuresConcat(run, a[1..], b);
    }
  }

  /** One item that cannot be indexed is reported, in order, and stops nothing else. */
  lemma {:induction false} SweepErrors(
      run: Run, above: seq<Item>, items: seq<Item>, every: bool, skip: bool, groups: Groups)
    requires skip == Skipped(run, above)
    ensures VisitAll(run, above, items, every, skip, groups).errors == Failures(run, NodesAll(above, items, every))
    decreases items, 0
  {
    if items != [] {
      var nodes := NodesAll(above, items[1..], every);
      if every || items[0].published {
        VisitErrors(run, above, items[0], skip, groups);
        SweepErrors(run, above, items[1..], every, skip, VisitItem(run, above, items[0], skip, groups).groups);
        FailuresConcat(run, Nodes(above, items[0]), nodes);
      } else {
        SweepErrors(run, above, items[1..], every, skip, groups);
        assert NodesAll(above, items, every) == nodes;
      }
    }
  }

  lemma {:induction false} VisitErrors(run: Run, above: seq<Item>, item: Item, skip: bool, groups: Groups)
    requires skip == Skipped(run, above)
    ensures VisitItem(run, above, item, skip, groups).errors == Failures(run, Nodes(above, item))
    decreases item, 1
  {
    if !Ignored(item) {
      var below, n := above + [item], Node(above, item);
      var kids := if item.hasChildren then NodesAll(below, item.children, false) else [];
      if item.hasChildren {
        SkippedBelow(run, above, item);
        SweepErrors(run, below, item.children, false, skip || Stale(run, item), ApplySplit(groups, item));
      }
      FailuresConcat(run, kids, [n]);
      assert Failures(run, [n]) ==
        if Indexable(item) && item.faulty && !skip then [item.location.key] else [];
    }
  }
}
