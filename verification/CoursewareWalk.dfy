/**
 * What one indexing walk does, as a function: the groups map it leaves behind, the ids
 * it keeps, the documents it appends and the groups it reports to the parent. The
 * methods of module CoursewareIndex are proved to compute these functions.
 */
module CoursewareWalk {
  import opened Common
  import opened CoursewareTree

  type Groups = map<string, seq<string>>

  /** `triggeredAt` is None for a full run. */
  datatype Run = Run(course: Course, triggeredAt: Option<int>, reindexAge: int)

  predicate Stale(run: Run, item: Item) {
    run.triggeredAt.Some? && run.triggeredAt.value - item.subtreeEditedOn > run.reindexAge
  }

  function Full(run: Run): Run { run.(triggeredAt := None) }

  // ---------------------------------------------------------------- split tests

  predicate Picks(split: Item, child: Item, group: string) {
    Lookup(split.groupIdToChild, group) == Some(child.location)
  }

  /** The last of `groups` that the split test assigns to `child`. */
  function LastPick(split: Item, child: Item, groups: seq<string>): Option<string> {
    if groups == [] then None
    else
      var later := LastPick(split, child, groups[1..]);
      if later.None? && Picks(split, child, groups[0]) then Some(groups[0]) else later
  }

  /** Of the groups that the split test maps to the child, the last one counts. */
  lemma {:induction false} LastPickIsLast(split: Item, child: Item, groups: seq<string>)
    ensures match LastPick(split, child, groups)
      case None => forall g <- groups :: Lookup(split.groupIdToChild, g) != Some(child.location)
      case Some(g) => Lookup(split.groupIdToChild, g) == Some(child.location) && exists i | 0 <= i < |groups| ::
        groups[i] == g && forall j | i < j < |groups| :: Lookup(split.groupIdToChild, groups[j]) != Some(child.location)
  {
    if groups != [] {
      var rest := groups[1..];
      LastPickIsLast(split, child, rest);
      var later := LastPick(split, child, rest);
      if later.Some? {
        var i :| && 0 <= i < |rest| && rest[i] == later.value
                 && forall j | i < j < |rest| :: !Picks(split, child, rest[j]);
        assert groups[i + 1] == later.value;
        assert forall j | i + 1 < j < |groups| :: groups[j] == rest[j - 1];
      } else if Picks(split, child, groups[0]) {
        assert forall j | 0 < j < |groups| :: groups[j] == rest[j - 1];
      }
    }
  }

  function PartitionGroups(split: Item): seq<string> {
    if split.partition.Some? then split.partition.value else []
  }

  /** The group a split test assigns to one of its children. */
  function Pick(split: Item, child: Item): Option<string> {
    LastPick(split, child, PartitionGroups(split))
  }

  function Keys(items: seq<Item>): set<string> {
    set c <- items :: c.location.key
  }

  /** A picked child and its components are given that group. */
  function Mark(m: Groups, child: Item, group: Option<string>): Groups {
    if group.None? then m else m + map k <- Keys([child] + Kids(child)) :: [group.value]
  }

  function MarkAll(m: Groups, split: Item, children: seq<Item>): Groups
    decreases children
  {
    if children == [] then m
    else MarkAll(Mark(m, children[0], Pick(split, children[0])), split, children[1..])
  }

  function ApplySplit(m: Groups, item: Item): Groups {
    if item.splitTest then MarkAll(m, item, Kids(item)) else m
  }

  // ----------------------------------------------------------------------- walk

  /** `hole`: some visited sibling reported no groups. */
  datatype Visit = Visit(
    groups: Groups, keep: set<string>, docs: seq<Document>, errors: seq<string>, result: Option<seq<string>>)
  datatype Sweep = Sweep(
    groups: Groups, keep: set<string>, docs: seq<Document>, errors: seq<string>, hole: bool)

  function VisitItem(run: Run, above: seq<Item>, item: Item, skip: bool, groups: Groups): Visit
    decreases item, 1
  {
    if Ignored(item) then Visit(groups, {}, [], [], None)
    else
      var marked := ApplySplit(groups, item);
      var own := Lookup(marked, item.location.key);
      var s := if item.hasChildren
               then VisitAll(run, above + [item], item.children, false, skip || Stale(run, item), marked)
               else Sweep(marked, {}, [], [], false);
      Finish(run, above, item, skip, own, s)
  }

  /** What happens to an item after its children. */
  function Finish(run: Run, above: seq<Item>, item: Item, skip: bool, own: Option<seq<string>>, s: Sweep): Visit {
    var keep := s.keep + {item.id};
    if skip || !Indexable(item) then Visit(s.groups, keep, s.docs, s.errors, None)
    else if item.faulty then Visit(s.groups, keep, s.docs, s.errors + [item.location.key], None)
    else
      var g := if s.hole then None else own;
      Visit(s.groups, keep, s.docs + [BuildDocument(run.course, above, item, g)], s.errors, g)
  }

  function VisitAll(run: Run, above: seq<Item>, items: seq<Item>, every: bool, skip: bool, groups: Groups): Sweep
    decreases items, 0
  {
    if items == [] then Sweep(groups, {}, [], [], false)
    else if every || items[0].published then
      var v := VisitItem(run, above, items[0], skip, groups);
      var s := VisitAll(run, above, items[1..], every, skip, v.groups);
      Sweep(s.groups, v.keep + s.keep, v.docs + s.docs, v.errors + s.errors, v.result.None? || s.hole)
    else VisitAll(run, above, items[1..], every, skip, groups)
  }

  function WalkCourse(run: Run, groups: Groups): Sweep {
    VisitAll(run, [], run.course.children, true, false, groups)
  }

  // --------------------------------------------------------- what a walk keeps

  /**
   * The ids kept are those of the visited nodes. They depend neither on the trigger time
   * and the reindex age nor on the groups.
   */
  lemma {:induction false} SweepKeeps(
      run: Run, above: seq<Item>, items: seq<Item>, every: bool, skip: bool, groups: Groups)
    ensures VisitAll(run, above, items, every, skip, groups).keep == Ids(NodesAll(above, items, every))
    decreases items, 0
  {
    if items != [] {
      var nodes := if every || items[0].published then Nodes(above, items[0]) else [];
      assert Ids(nodes + NodesAll(above, items[1..], every)) == Ids(nodes) + Ids(NodesAll(above, items[1..], every));
      if every || items[0].published {
        VisitKeeps(run, above, items[0], skip, groups);
        var v := VisitItem(run, above, items[0], skip, groups);
        SweepKeeps(run, above, items[1..], every, skip, v.groups);
      } else {
        SweepKeeps(run, above, items[1..], every, skip, groups);
      }
    }
  }

  lemma {:induction false} VisitKeeps(run: Run, above: seq<Item>, item: Item, skip: bool, groups: Groups)
    ensures VisitItem(run, above, item, skip, groups).keep == Ids(Nodes(above, item))
    decreases item, 1
  {
    if !Ignored(item) {
      var below := above + [item];
      var kids := if item.hasChildren then NodesAll(below, item.children, false) else [];
      assert Ids(kids + [Node(above, item)]) == Ids(kids) + {item.id};
      if item.hasChildren {
        SweepKeeps(run, below, item.children, false, skip || Stale(run, item), ApplySplit(groups, item));
      }
    }
  }
}
