/** The pure part of the tree view: `buildHierarchy`, which rebuilds every
    child list from the parent links and projects the flat node list onto a
    tree hanging from the first parentless node, and `truncateText`, which
    shortens node labels. The drawing itself is left to the layout library. */
module TreeVisualization {
  import opened Wrappers
  import opened WikiTypes
  import opened App
  import opened AppInvariants

  // ---------------------------------------------------------------------
  // Rebuilding child lists
  // ---------------------------------------------------------------------

  /** The `forEach` that overwrites every node's `children` with the ids of
      the nodes naming it as parent, in list order. */
  function RebuildChildren(nodes: seq<Node>): (r: seq<Node>)
    ensures |r| == |nodes| && SameLinks(nodes, r)
    ensures forall i :: 0 <= i < |nodes| ==> r[i] == nodes[i].(children := r[i].children)
    ensures ChildrenRule(r)
  {
    var r := seq(|nodes|, i requires 0 <= i < |nodes| => nodes[i].(children := ChildIds(nodes, nodes[i].id)));
    assert SameLinks(nodes, r);
    forall i | 0 <= i < |r| ensures r[i].children == ChildIds(r, r[i].id) {
      ChildIdsSameLinks(nodes, r, r[i].id);
    }
    r
  }

  /** The rebuild mutates the records it is given, which are the
      application's own: it leaves them unchanged exactly when their child
      lists already match the parent links, as in every valid state. */
  lemma RebuildUnchangedIff(nodes: seq<Node>)
    ensures RebuildChildren(nodes) == nodes <==> ChildrenRule(nodes)
  {
    var r := RebuildChildren(nodes);
    if ChildrenRule(nodes) {
      assert forall i :: 0 <= i < |nodes| ==> r[i] == nodes[i];
    }
  }

  // ---------------------------------------------------------------------
  // Lookups
  // ---------------------------------------------------------------------

  /** Index of the LAST node with the given id: `new Map(entries)` keeps the
      last entry for a repeated key. */
  function LastIndexById(nodes: seq<Node>, id: Id): (r: Option<nat>)
    ensures r.Some? ==> r.value < |nodes| && nodes[r.value].id == id
    ensures r.Some? ==> forall j :: r.value < j < |nodes| ==> nodes[j].id != id
    ensures r.None? <==> !HasId(nodes, id)
  {
    if |nodes| == 0 then None
    else if nodes[|nodes| - 1].id == id then Some(|nodes| - 1)
    else
      LastIndexById(nodes[..|nodes| - 1], id)
  }

  /** With unique ids the map lookup and `find` agree. */
  lemma LastIsFirstWhenUnique(nodes: seq<Node>, id: Id)
    requires UniqueIds(nodes)
    ensures LastIndexById(nodes, id) == FindIndex(nodes, id)
  {
  }

  /** Index of the first node whose parent id is null (`parentId === null`);
      an empty-string parent id does not count. */
  function FirstRootIndex(nodes: seq<Node>): (r: Option<nat>)
    ensures r.Some? ==> r.value < |nodes| && nodes[r.value].parentId.None?
    ensures r.Some? ==> forall j :: 0 <= j < r.value ==> nodes[j].parentId.Some?
    ensures r.None? <==> forall j :: 0 <= j < |nodes| ==> nodes[j].parentId.Some?
  {
    if |nodes| == 0 then None
    else if nodes[0].parentId.None? then Some(0)
    else
      match FirstRootIndex(nodes[1..])
      case None => None
      case Some(i) => Some(i + 1)
  }

  // ---------------------------------------------------------------------
  // Trees
  // ---------------------------------------------------------------------

  /** A projected node: the record and the subtrees built from its child ids. */
  datatype Tree = Tree(node: Node, kids: seq<Tree>)

  /** Result of `buildTree`: a missing id yields `null`, and a recursion that
      ran out of fuel stands for one that never bottoms out, which in
      JavaScript overflows the stack and throws a `RangeError` out of the effect. */
  datatype Built = Missing | Overflow | Built(tree: Tree)

  /** Every record in the tree is one of `pool`. */
  predicate AllFrom(t: Tree, pool: seq<Node>) {
    t.node in pool && forall i :: 0 <= i < |t.kids| ==> AllFrom(t.kids[i], pool)
  }

  /** The subtrees follow the stored child lists exactly, id by id. */
  predicate Mirrors(t: Tree) {
    |t.kids| == |t.node.children|
    && forall i :: 0 <= i < |t.kids| ==> t.kids[i].node.id == t.node.children[i] && Mirrors(t.kids[i])
  }

  /** Every subtree's record names its parent's record as parent. */
  predicate Linked(t: Tree) {
    forall i :: 0 <= i < |t.kids| ==> t.kids[i].node.parentId == Some(t.node.id) && Linked(t.kids[i])
  }

  predicate OccursId(id: Id, t: Tree) {
    t.node.id == id || exists i :: 0 <= i < |t.kids| && OccursId(id, t.kids[i])
  }

  /** Every child id names some node of the list. */
  predicate ChildrenPresent(pool: seq<Node>) {
    forall i, k :: 0 <= i < |pool| && 0 <= k < |pool[i].children| ==> HasId(pool, pool[i].children[k])
  }

  /** `buildTree(id)` over the rebuilt list, with `fuel` bounding the recursion. */
  function BuildTree(pool: seq<Node>, id: Id, fuel: nat): (r: Built)
    decreases fuel, 0
    ensures r.Missing? <==> !HasId(pool, id)
    ensures r.Built? ==> r.tree.node.id == id && AllFrom(r.tree, pool)
  {
    match LastIndexById(pool, id)
    case None => Missing
    case Some(k) =>
      if fuel == 0 then Overflow
      else
        var n := pool[k];
        match BuildForest(pool, n.children, fuel - 1)
        case None => Overflow
        case Some(kids) => Built(Tree(n, kids))
  }

  /** `ids.map(buildTree).filter(Boolean)`: missing ids are dropped, and one
      overflowing recursion makes the whole call overflow. */
  function BuildForest(pool: seq<Node>, ids: seq<Id>, fuel: nat): (r: Option<seq<Tree>>)
    decreases fuel, 1, |ids|
    ensures r.Some? ==> |r.value| <= |ids|
    ensures r.Some? ==> forall i :: 0 <= i < |r.value| ==> r.value[i].node.id in ids && AllFrom(r.value[i], pool)
  {
    if |ids| == 0 then Some([])
    else
      match BuildForest(pool, ids[1..], fuel)
      case None => None
      case Some(rest) =>
        match BuildTree(pool, ids[0], fuel)
        case Overflow => None
        case Missing => Some(rest)
        case Built(t) => Some([t] + rest)
  }

  /** When every child id names a node, a built tree follows the child lists. */
  lemma {:induction false} TreeMirrors(pool: seq<Node>, id: Id, fuel: nat)
    requires ChildrenPresent(pool)
    requires BuildTree(pool, id, fuel).Built?
    ensures Mirrors(BuildTree(pool, id, fuel).tree)
    decreases fuel, 0
  {
    var k := LastIndexById(pool, id).value;
    var n := pool[k];
    var kids := BuildForest(pool, n.children, fuel - 1).value;
    assert BuildTree(pool, id, fuel) == Built(Tree(n, kids));
    assert forall m :: 0 <= m < |n.children| ==> HasId(pool, n.children[m]);
    ForestMirrors(pool, n.children, fuel - 1);
  }

  /** When every id names a node, the forest has exactly one subtree per id,
      in order, each following the child lists. */
  lemma {:induction false} ForestMirrors(pool: seq<Node>, ids: seq<Id>, fuel: nat)
    requires ChildrenPresent(pool) && forall k :: 0 <= k < |ids| ==> HasId(pool, ids[k])
    requires BuildForest(pool, ids, fuel).Some?
    ensures |BuildForest(pool, ids, fuel).value| == |ids|
    ensures forall i :: 0 <= i < |ids| ==>
      BuildForest(pool, ids, fuel).value[i].node.id == ids[i] && Mirrors(BuildForest(pool, ids, fuel).value[i])
    decreases fuel, 1, |ids|
  {
    if |ids| > 0 {
      ForestCons(pool, ids, fuel);
      var r := BuildForest(pool, ids, fuel).value;
      var rest := BuildForest(pool, ids[1..], fuel).value;
      forall k | 0 <= k < |ids| - 1 ensures HasId(pool, ids[1..][k]) {
        assert ids[1..][k] == ids[k + 1];
      }
      ForestMirrors(pool, ids[1..], fuel);
      TreeMirrors(pool, ids[0], fuel);
      forall i | 0 <= i < |ids| ensures r[i].node.id == ids[i] && Mirrors(r[i]) {
        if i > 0 {
          assert r[i] == rest[i - 1] && ids[i] == ids[1..][i - 1];
        }
      }
    }
  }

  /** A forest over a known first id is that id's tree ahead of the rest. */
  lemma ForestCons(pool: seq<Node>, ids: seq<Id>, fuel: nat)
    requires |ids| > 0 && HasId(pool, ids[0]) && BuildForest(pool, ids, fuel).Some?
    ensures BuildTree(pool, ids[0], fuel).Built? && BuildForest(pool, ids[1..], fuel).Some?
    ensures BuildForest(pool, ids, fuel).value ==
      [BuildTree(pool, ids[0], fuel).tree] + BuildForest(pool, ids[1..], fuel).value
  {
  }

  /** Every record listed in a record's child list names that record as parent. */
  predicate ChildrenLinked(pool: seq<Node>) {
    forall p, c :: p in pool && c in pool && c.id in p.children ==> c.parentId == Some(p.id)
  }

  /** Unique ids and child lists that match the parent links make every
      listed child name its parent. */
  lemma UniqueChildrenLinked(pool: seq<Node>)
    requires UniqueIds(pool) && ChildrenRule(pool)
    ensures ChildrenLinked(pool)
  {
    forall p, c | p in pool && c in pool && c.id in p.children ensures c.parentId == Some(p.id) {
      var i :| 0 <= i < |pool| && pool[i] == p;
      assert c.id in ChildIds(pool, p.id);
      var j :| 0 <= j < |pool| && pool[j].parentId == Some(p.id) && pool[j].id == c.id;
      var m :| 0 <= m < |pool| && pool[m] == c;
      assert m == j;
    }
  }

  /** When listed children name their parent, every built subtree's record
      names its parent's record as parent. */
  lemma {:induction false} TreeLinked(pool: seq<Node>, id: Id, fuel: nat)
    requires ChildrenLinked(pool)
    requires BuildTree(pool, id, fuel).Built?
    ensures Linked(BuildTree(pool, id, fuel).tree)
    decreases fuel, 0
  {
    var k := LastIndexById(pool, id).value;
    var n := pool[k];
    var kids := BuildForest(pool, n.children, fuel - 1).value;
    assert BuildTree(pool, id, fuel) == Built(Tree(n, kids));
    ForestLinked(pool, n.children, fuel - 1);
    forall i | 0 <= i < |kids| ensures kids[i].node.parentId == Some(id) {
      assert kids[i].node in pool && kids[i].node.id in n.children;
    }
  }

  lemma {:induction false} ForestLinked(pool: seq<Node>, ids: seq<Id>, fuel: nat)
    requires ChildrenLinked(pool)
    requires BuildForest(pool, ids, fuel).Some?
    ensures forall i :: 0 <= i < |BuildForest(pool, ids, fuel).value| ==> Linked(BuildForest(pool, ids, fuel).value[i])
    decreases fuel, 1, |ids|
  {
    if |ids| > 0 {
      ForestLinked(pool, ids[1..], fuel);
      if BuildTree(pool, ids[0], fuel).Built? {
        TreeLinked(pool, ids[0], fuel);
      }
    }
  }

  // ---------------------------------------------------------------------
  // buildHierarchy
  // ---------------------------------------------------------------------

  /** What `buildHierarchy` hands the layout library: nothing (`null`) or the
      tree; `Unbounded` stands for the stack-overflow `RangeError` a recursion
      without end throws instead. */
  datatype Projection = NoTree | Projected(root: Tree) | Unbounded

  /** `buildHierarchy(flatNodes)`. The recursion is given one level of fuel
      per node: a deeper descent repeats an id on its path and would recurse
      until the stack overflows. */
  function BuildHierarchy(nodes: seq<Node>): (r: Projection)
    ensures r.NoTree? <==> forall j :: 0 <= j < |nodes| ==> nodes[j].parentId.Some?
    ensures r.Projected? ==> r.root.node.id == nodes[FirstRootIndex(nodes).value].id
    ensures r.Projected? ==> AllFrom(r.root, RebuildChildren(nodes)) && Mirrors(r.root)
  {
    if |nodes| == 0 then NoTree
    else
      match FirstRootIndex(nodes)
      case None => NoTree
      case Some(k) =>
        var pool := RebuildChildren(nodes);
        assert pool[k].id == nodes[k].id;
        RebuiltChildrenPresent(nodes);
        match BuildTree(pool, nodes[k].id, |nodes|)
        case Built(t) =>
          TreeMirrors(pool, nodes[k].id, |nodes|);
          Projected(t)
        case Overflow => Unbounded
        case Missing => assert false; NoTree
  }

  /** Every child id of a rebuilt list names one of its nodes. */
  lemma RebuiltChildrenPresent(nodes: seq<Node>)
    ensures ChildrenPresent(RebuildChildren(nodes))
  {
    var pool := RebuildChildren(nodes);
    forall i, m | 0 <= i < |pool| && 0 <= m < |pool[i].children| ensures HasId(pool, pool[i].children[m]) {
      assert pool[i].children[m] in ChildIds(pool, pool[i].id);
    }
  }

  /** With unique ids, the projection's root is the first parentless record
      with its rebuilt child list, and every subtree names its parent. */
  lemma HierarchyLinked(nodes: seq<Node>)
    requires UniqueIds(nodes) && BuildHierarchy(nodes).Projected?
    ensures Linked(BuildHierarchy(nodes).root)
    ensures BuildHierarchy(nodes).root.node == RebuildChildren(nodes)[FirstRootIndex(nodes).value]
  {
    var pool := RebuildChildren(nodes);
    var k := FirstRootIndex(nodes).value;
    assert pool[k].id == nodes[k].id;
    assert UniqueIds(pool);
    LastIsFirstWhenUnique(pool, nodes[k].id);
    assert BuildHierarchy(nodes) == Projected(BuildTree(pool, nodes[k].id, |nodes|).tree);
    UniqueChildrenLinked(pool);
    TreeLinked(pool, nodes[k].id, |nodes|);
  }

  /** In a linked tree whose records have unique ids, the only parentless
      record is the root. */
  lemma {:induction false} OnlyRootParentless(t: Tree, pool: seq<Node>, j: nat)
    requires Linked(t) && AllFrom(t, pool) && UniqueIds(pool)
    requires j < |pool| && pool[j].parentId.None? && OccursId(pool[j].id, t)
    ensures t.node.id == pool[j].id
  {
    if t.node.id != pool[j].id {
      var i :| 0 <= i < |t.kids| && OccursId(pool[j].id, t.kids[i]);
      OnlyRootParentless(t.kids[i], pool, j);
    }
  }

  /** With unique ids, parentless nodes other than the first never appear
      in the projection. */
  lemma OtherRootsAbsent(nodes: seq<Node>, j: nat)
    requires UniqueIds(nodes) && BuildHierarchy(nodes).Projected?
    requires j < |nodes| && nodes[j].parentId.None? && j != FirstRootIndex(nodes).value
    ensures !OccursId(nodes[j].id, BuildHierarchy(nodes).root)
  {
    var pool := RebuildChildren(nodes);
    var t := BuildHierarchy(nodes).root;
    HierarchyLinked(nodes);
    if OccursId(nodes[j].id, t) {
      assert pool[j].id == nodes[j].id;
      OnlyRootParentless(t, pool, j);
    }
  }

  // ---------------------------------------------------------------------
  // Valid states always project
  // ---------------------------------------------------------------------

  /** Depth goes up by one from a node to each of its children. */
  lemma ChildOneDeeper(pool: seq<Node>, k: nat, c: Id)
    requires NodeRules(pool) && k < |pool| && c in pool[k].children
    ensures HasId(pool, c) && FindById(pool, c).value.depth == pool[k].depth + 1
  {
    var j :| 0 <= j < |pool| && pool[j].parentId == Some(pool[k].id) && pool[j].id == c;
    assert Placed(pool, j);
    var p := FindIndex(pool, pool[k].id).value;
    assert p == k;
    var q := FindIndex(pool, c).value;
    assert q == j;
  }

  /** Each child id of node `k` names a node, and the map lookup finds one level deeper. */
  predicate KidsDeeper(pool: seq<Node>, k: nat)
    requires k < |pool|
  {
    forall m :: 0 <= m < |pool[k].children| ==>
      LastIndexById(pool, pool[k].children[m]).Some?
      && pool[LastIndexById(pool, pool[k].children[m]).value].depth == pool[k].depth + 1
  }

  predicate ChildDepths(pool: seq<Node>) {
    forall k: nat :: k < |pool| ==> KidsDeeper(pool, k)
  }

  /** Valid node lists have the depth step the recursion needs. */
  lemma ValidChildDepths(pool: seq<Node>)
    requires NodeRules(pool)
    ensures ChildDepths(pool)
  {
    forall k: nat | k < |pool| ensures KidsDeeper(pool, k) {
      forall m | 0 <= m < |pool[k].children|
        ensures LastIndexById(pool, pool[k].children[m]).Some?
        ensures pool[LastIndexById(pool, pool[k].children[m]).value].depth == pool[k].depth + 1
      {
        ChildOneDeeper(pool, k, pool[k].children[m]);
        LastIsFirstWhenUnique(pool, pool[k].children[m]);
      }
    }
  }

  /** Fuel of at least the distance from a node's depth to the list length
      is enough to build its subtree. */
  lemma {:induction false} TreeBounded(pool: seq<Node>, k: nat, fuel: nat)
    requires ChildDepths(pool) && DepthBound(pool)
    requires k < |pool| && LastIndexById(pool, pool[k].id) == Some(k)
    requires fuel + pool[k].depth >= |pool|
    ensures BuildTree(pool, pool[k].id, fuel).Built?
    decreases fuel, 1
  {
    assert pool[k].depth < |pool|;
    ChildrenBounded(pool, k, fuel - 1);
    BuildTreeStep(pool, k, fuel);
  }

  /** The children of a node all build with the fuel left after descending to them. */
  lemma {:induction false} ChildrenBounded(pool: seq<Node>, k: nat, fuel: nat)
    requires ChildDepths(pool) && DepthBound(pool)
    requires k < |pool| && fuel + 1 + pool[k].depth >= |pool|
    ensures BuildForest(pool, pool[k].children, fuel).Some?
    decreases fuel + 1, 0
  {
    KidsFuel(pool, k, fuel);
    ForestBounded(pool, pool[k].children, fuel);
  }

  /** One level less fuel still covers every child of node `k`. */
  lemma KidsFuel(pool: seq<Node>, k: nat, fuel: nat)
    requires k < |pool| && KidsDeeper(pool, k) && fuel + 1 + pool[k].depth >= |pool|
    ensures Covered(pool, pool[k].children, fuel)
  {
  }

  /** Every id names a node, and `fuel` reaches from its depth to the list length. */
  predicate Covered(pool: seq<Node>, ids: seq<Id>, fuel: nat) {
    forall m :: 0 <= m < |ids| ==>
      LastIndexById(pool, ids[m]).Some? && fuel + pool[LastIndexById(pool, ids[m]).value].depth >= |pool|
  }

  /** A found node with fuel whose children all build, builds. */
  lemma BuildTreeStep(pool: seq<Node>, k: nat, fuel: nat)
    requires k < |pool| && fuel > 0 && LastIndexById(pool, pool[k].id) == Some(k)
    requires BuildForest(pool, pool[k].children, fuel - 1).Some?
    ensures BuildTree(pool, pool[k].id, fuel).Built?
  {
  }

  lemma {:induction false} ForestBounded(pool: seq<Node>, ids: seq<Id>, fuel: nat)
    requires ChildDepths(pool) && DepthBound(pool)
    requires Covered(pool, ids, fuel)
    ensures BuildForest(pool, ids, fuel).Some?
    decreases fuel, 2, |ids|
  {
    if |ids| > 0 {
      ForestBounded(pool, ids[1..], fuel);
      var j := LastIndexById(pool, ids[0]).value;
      TreeBounded(pool, j, fuel);
    }
  }

  /** A valid non-empty history with a parentless node always projects to a
      finite tree rooted at its first parentless node. */
  lemma ValidStateProjects(s: State)
    requires Valid(s) && exists j :: 0 <= j < |s.nodes| && s.nodes[j].parentId.None?
    ensures BuildHierarchy(s.nodes).Projected?
    ensures BuildHierarchy(s.nodes).root.node == s.nodes[FirstRootIndex(s.nodes).value]
  {
    RulesProject(s.nodes);
  }

  lemma RulesProject(nodes: seq<Node>)
    requires NodeRules(nodes) && exists j :: 0 <= j < |nodes| && nodes[j].parentId.None?
    ensures BuildHierarchy(nodes).Projected?
    ensures BuildHierarchy(nodes).root.node == nodes[FirstRootIndex(nodes).value]
  {
    RebuildUnchangedIff(nodes);
    ValidChildDepths(nodes);
    RootProjects(nodes);
  }

  /** With unique ids, the first parentless node is also the one the map
      lookup finds for its id. */
  lemma RootProjects(nodes: seq<Node>)
    requires UniqueIds(nodes) && RebuildChildren(nodes) == nodes && ChildDepths(nodes) && DepthBound(nodes)
    requires exists j :: 0 <= j < |nodes| && nodes[j].parentId.None?
    ensures BuildHierarchy(nodes).Projected?
    ensures BuildHierarchy(nodes).root.node == nodes[FirstRootIndex(nodes).value]
  {
    var k := FirstRootIndex(nodes).value;
    assert HasId(nodes, nodes[k].id);
    BoundedProjects(nodes, k);
  }

  /** A list the rebuild leaves alone, with the depth step and bound, whose
      first parentless node is found by the map lookup, projects from it. */
  lemma BoundedProjects(nodes: seq<Node>, k: nat)
    requires RebuildChildren(nodes) == nodes && ChildDepths(nodes) && DepthBound(nodes)
    requires FirstRootIndex(nodes) == Some(k) && LastIndexById(nodes, nodes[k].id) == Some(k)
    ensures BuildHierarchy(nodes).Projected?
    ensures BuildHierarchy(nodes).root.node == nodes[k]
  {
    TreeBounded(nodes, k, |nodes|);
  }

  // ---------------------------------------------------------------------
  // truncateText
  // ---------------------------------------------------------------------

  /** `truncateText(text, maxLength)`: `substring(0, maxLength)` clamps a
      negative length to 0. */
  function TruncateText(text: string, maxLength: int): (r: string)
    ensures |text| <= maxLength ==> r == text
    ensures |text| > maxLength ==>
      |r| == (if maxLength < 0 then 0 else maxLength) + 3
      && r[..|r| - 3] == text[..|r| - 3] && r[|r| - 3..] == "..."
  {
    if |text| > maxLength then
      text[..if maxLength < 0 then 0 else maxLength] + "..."
    else text
  }

  /** A label is never longer than the limit plus the three dots, and is
      either the text or a proper prefix of it followed by the dots. */
  lemma TruncateBounds(text: string, maxLength: nat)
    ensures |TruncateText(text, maxLength)| <= maxLength + 3
    ensures TruncateText(text, maxLength) == text
      || exists p :: 0 <= p < |text| && TruncateText(text, maxLength) == text[..p] + "..."
  {
    if |text| > maxLength {
      assert TruncateText(text, maxLength) == text[..maxLength] + "...";
    }
  }
}
