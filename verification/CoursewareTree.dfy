/**
 * The published course tree that the courseware indexer walks, the documents it
 * builds, and the nodes a walk visits.
 */
module CoursewareTree {
  import opened Common

  /** `key` is the version-agnostic, branch-free text of the location. */
  datatype Location = Location(key: string, version: string)

  datatype Value = Text(text: string) | Date(time: int) | List(items: seq<string>) | Null

  const ID := "id"
  const CONTENT_GROUPS := "content_groups"

  /** A search document. The engine stores it under the text of its "id" field. */
  type Document = d: map<string, Value> | ID in d && d[ID].Text? witness map[ID := Text("")]

  function DocId(d: Document): string { d[ID].text }

  /** The document without its content groups. */
  function Bare(d: Document): map<string, Value> { d - {CONTENT_GROUPS} }

  predicate Restricted(d: Document) {
    CONTENT_GROUPS in d && d[CONTENT_GROUPS] != Null
  }

  /** `faulty` marks an item for which building the document raises. */
  datatype Item = Item(
    location: Location,
    id: string,
    displayName: string,
    indexDictionary: Option<map<string, Value>>,
    hasChildren: bool,
    children: seq<Item>,
    published: bool,
    subtreeEditedOn: int,
    start: Option<int>,
    splitTest: bool,
    partition: Option<seq<string>>,
    groupIdToChild: map<string, Location>,
    faulty: bool)

  datatype Course = Course(
    location: map<string, Value>, displayName: string, children: seq<Item>)

  /** `get_children()`: nothing unless the item may have children. */
  function Kids(item: Item): (kids: seq<Item>)
    ensures forall c <- kids :: c < item
  {
    if item.hasChildren then item.children else []
  }

  predicate Indexable(item: Item) {
    item.indexDictionary.Some? && item.indexDictionary.value != map[]
  }

  /** Items without anything to index and without children are not walked at all. */
  predicate Ignored(item: Item) {
    !Indexable(item) && !item.hasChildren
  }

  /** The walk appends a document for exactly the items of this kind. */
  predicate Writable(item: Item) {
    Indexable(item) && !item.faulty
  }

  // ------------------------------------------------------------------ documents

  const UNNAMED := "(Unnamed)"

  function ShownName(name: string): string {
    if name == "" then UNNAMED else name
  }

  /** Display names from the course down to the last item of `chain`. */
  function NamePath(course: Course, chain: seq<Item>): (names: seq<string>)
    ensures |names| == |chain| + 1
    ensures names[0] == ShownName(course.displayName)
    ensures forall i | 0 <= i < |chain| :: names[i + 1] == ShownName(chain[i].displayName)
  {
    [ShownName(course.displayName)] + seq(|chain|, i requires 0 <= i < |chain| => ShownName(chain[i].displayName))
  }

  function Supplement(names: seq<string>): map<string, Value>
    requires |names| > 0
  {
    map["course_name" := Text(names[0]), "location" := List(names[1..][..Min(3, |names| - 1)])]
  }

  /** The index entry of `item`, whose walked ancestors are `above`. */
  function BuildDocument(course: Course, above: seq<Item>, item: Item, groups: Option<seq<string>>): (d: Document)
    requires Indexable(item)
  {
    var d0 := course.location + item.indexDictionary.value;
    var d1 := d0[ID := Text(item.id)];
    var d2 := if item.start.Some? then d1["start_date" := Date(item.start.value)] else d1;
    var d3 := d2[CONTENT_GROUPS := if groups.Some? && groups.value != [] then List(groups.value) else Null];
    d3 + Supplement(NamePath(course, above + [item]))
  }

  /**
   * What every field of a built document holds, field by field. The location is the
   * at most three names below the course, and nothing in the index dictionary can
   * override the id, the groups or the location path.
   */
  lemma DocumentFields(course: Course, above: seq<Item>, item: Item, groups: Option<seq<string>>, f: string)
    requires Indexable(item)
    ensures var d := BuildDocument(course, above, item, groups); var dict := item.indexDictionary.value;
      && DocId(d) == item.id
      && d["course_name"] == Text(if course.displayName == "" then "(Unnamed)" else course.displayName)
      && d["location"].List? && |d["location"].items| == Min(3, |above| + 1)
      && (forall i | 0 <= i < |d["location"].items| ::
            var name := (above + [item])[i].displayName;
            d["location"].items[i] == if name == "" then "(Unnamed)" else name)
      && (Restricted(d) <==> groups.Some? && groups.value != [])
      && (Restricted(d) ==> d[CONTENT_GROUPS] == List(groups.value))
      && (item.start.Some? ==> d["start_date"] == Date(item.start.value))
      && (f !in {ID, CONTENT_GROUPS, "course_name", "location"} && (f != "start_date" || item.start.None?) ==>
            Lookup(d, f) == if f in dict then Some(dict[f]) else Lookup(course.location, f))
  {
    LocationField(course, above, item, groups);
    OtherFields(course, above, item, groups, f);
  }

  lemma LocationField(course: Course, above: seq<Item>, item: Item, groups: Option<seq<string>>)
    requires Indexable(item)
    ensures var d := BuildDocument(course, above, item, groups);
      && d["location"].List? && |d["location"].items| == Min(3, |above| + 1)
      && forall i | 0 <= i < |d["location"].items| ::
           d["location"].items[i] == ShownName((above + [item])[i].displayName)
  {
    var names := NamePath(course, above + [item]);
    assert |names[1..][..Min(3, |names| - 1)]| == Min(3, |above| + 1);
  }

  lemma OtherFields(course: Course, above: seq<Item>, item: Item, groups: Option<seq<string>>, f: string)
    requires Indexable(item)
    ensures var d := BuildDocument(course, above, item, groups); var dict := item.indexDictionary.value;
      && DocId(d) == item.id && d["course_name"] == Text(ShownName(course.displayName))
      && (Restricted(d) <==> groups.Some? && groups.value != [])
      && (Restricted(d) ==> d[CONTENT_GROUPS] == List(groups.value))
      && (item.start.Some? ==> d["start_date"] == Date(item.start.value))
      && (f !in {ID, CONTENT_GROUPS, "course_name", "location"} && (f != "start_date" || item.start.None?) ==>
            Lookup(d, f) == if f in dict then Some(dict[f]) else Lookup(course.location, f))
  {
  }

  lemma BareIgnoresGroups(course: Course, above: seq<Item>, item: Item, g: Option<seq<string>>, h: Option<seq<string>>)
    requires Indexable(item)
    ensures Bare(BuildDocument(course, above, item, g)) == Bare(BuildDocument(course, above, item, h))
  {
  }

  // ---------------------------------------------------------------------- nodes

  /** An item met by the walk, with the walked items above it, outermost first. */
  datatype Node = Node(above: seq<Item>, item: Item)

  /** The nodes a walk of `item` visits, in the order their documents are appended. */
  function Nodes(above: seq<Item>, item: Item): seq<Node>
    decreases item, 1
  {
    if Ignored(item) then []
    else
      (if item.hasChildren then NodesAll(above + [item], item.children, false) else []) + [Node(above, item)]
  }

  /** The same for a list of siblings, of which unpublished ones are passed over unless `every`. */
  function NodesAll(above: seq<Item>, items: seq<Item>, every: bool): seq<Node>
    decreases items, 0
  {
    if items == [] then []
    else
      (if every || items[0].published then Nodes(above, items[0]) else []) + NodesAll(above, items[1..], every)
  }

  function CourseNodes(course: Course): seq<Node> {
    NodesAll([], course.children, true)
  }

  ghost predicate DistinctIds(nodes: seq<Node>) {
    forall i, j | 0 <= i < j < |nodes| :: nodes[i].item.id != nodes[j].item.id
  }

  function Ids(nodes: seq<Node>): set<string> {
    set n <- nodes :: n.item.id
  }

  /**
   * Independent reading of `Nodes`: the chain of walked items down to a node. Each has
   * something to index or may have children, and each but the last has children.
   */
  ghost predicate Chain(items: seq<Item>, every: bool, chain: seq<Item>)
    decreases |chain|
  {
    && |chain| > 0 && chain[0] in items && (every || chain[0].published)
    && (chain[0].hasChildren || (chain[0].indexDictionary.Some? && chain[0].indexDictionary.value != map[]))
    && (|chain| > 1 ==> chain[0].hasChildren && Chain(chain[0].children, false, chain[1..]))
  }

  /** The nodes of a walk are exactly the chains of published items from the top. */
  lemma {:induction false} NodesAreChains(above: seq<Item>, items: seq<Item>, every: bool, n: Node)
    ensures n in NodesAll(above, items, every) <==>
            |above| <= |n.above| && n.above[..|above|] == above
            && Chain(items, every, n.above[|above|..] + [n.item])
    decreases items, 0
  {
    if items == [] {
    } else {
      NodesAreChains(above, items[1..], every, n);
      if every || items[0].published { NodesOfItem(above, items[0], n); }
      var chain := if |above| <= |n.above| then n.above[|above|..] + [n.item] else [n.item];
      assert Chain(items, every, chain) <==>
        (Chain([items[0]], every, chain) || Chain(items[1..], every, chain)) by {
        assert chain[0] in items <==> chain[0] == items[0] || chain[0] in items[1..];
      }
    }
  }

  lemma {:induction false} NodesOfItem(above: seq<Item>, item: Item, n: Node)
    ensures n in Nodes(above, item) <==>
            |above| <= |n.above| && n.above[..|above|] == above
            && Chain([item], true, n.above[|above|..] + [n.item])
    decreases item, 1
  {
    if !Ignored(item) {
      var below := above + [item];
      if item.hasChildren { NodesAreChains(below, item.children, false, n); }
      if |above| <= |n.above| && n.above[..|above|] == above {
        var chain := n.above[|above|..] + [n.item];
        if |n.above| == |above| {
          assert chain == [n.item] && n.above == above;
        } else {
          assert chain[0] == n.above[|above|];
          assert n.above[..|above| + 1] == above + [chain[0]];
          assert chain[1..] == n.above[|below|..] + [n.item];
          assert |chain| > 1;
        }
      } else if |below| <= |n.above| {
        assert below[..|above|] == above;
      }
    }
  }
}
