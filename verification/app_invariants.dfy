/** The consistency rules the browsing-history state keeps, and proofs that
    every handler preserves them when its caller supplies a fresh id and an
    existing parent, as the id generator and the details pane do. */
module AppInvariants {
  import opened Wrappers
  import opened WikiTypes
  import opened WikiService
  import opened App

  // ---------------------------------------------------------------------
  // The rules
  // ---------------------------------------------------------------------

  predicate UniqueUrls(nodes: seq<Node>) {
    forall i, j :: 0 <= i < j < |nodes| ==> nodes[i].url != nodes[j].url
  }

  predicate NonEmptyIds(nodes: seq<Node>) {
    forall i :: 0 <= i < |nodes| ==> nodes[i].id != ""
  }

  /** Node `i` sits one level below the parent it names, or at the top
      when its parent id is falsy. */
  predicate Placed(nodes: seq<Node>, i: nat)
    requires i < |nodes|
  {
    if Truthy(nodes[i].parentId) then
      HasId(nodes, nodes[i].parentId.value)
      && nodes[i].depth == FindById(nodes, nodes[i].parentId.value).value.depth + 1
    else nodes[i].depth == 0
  }

  predicate DepthRule(nodes: seq<Node>) {
    forall i: nat :: i < |nodes| ==> Placed(nodes, i)
  }

  /** Each stored child list lists the nodes naming it as parent, in order. */
  predicate ChildrenRule(nodes: seq<Node>) {
    forall i :: 0 <= i < |nodes| ==> nodes[i].children == ChildIds(nodes, nodes[i].id)
  }

  predicate DepthBound(nodes: seq<Node>) {
    forall i :: 0 <= i < |nodes| ==> nodes[i].depth < |nodes|
  }

  /** The rules about the node list alone. */
  predicate NodeRules(nodes: seq<Node>) {
    UniqueIds(nodes) && NonEmptyIds(nodes) && UniqueUrls(nodes)
    && DepthRule(nodes) && ChildrenRule(nodes) && DepthBound(nodes)
  }

  predicate PathResolves(s: State) {
    forall k :: 0 <= k < |s.path| ==> HasId(s.nodes, s.path[k])
  }

  /** The node at the tip of the path is the one being viewed. */
  predicate ViewingRule(s: State) {
    forall i :: 0 <= i < |s.nodes| ==>
      s.nodes[i].viewing == (|s.path| > 0 && s.nodes[i].id == s.path[|s.path| - 1])
  }

  predicate Valid(s: State) {
    NodeRules(s.nodes) && PathResolves(s) && (|s.path| == 0 <==> |s.nodes| == 0) && ViewingRule(s)
  }

  /** What callers of `addNode` guarantee: a parent id, when truthy, names an
      existing node, and the generated id is non-empty and not yet in use. */
  predicate AddAdmissible(s: State, parentId: Option<Id>, freshId: Id) {
    (Truthy(parentId) ==> HasId(s.nodes, parentId.value)) && freshId != "" && !HasId(s.nodes, freshId)
  }

  // ---------------------------------------------------------------------
  // Lists with the same shape
  // ---------------------------------------------------------------------

  /** Two node lists that differ at most in visit counts and viewing flags. */
  predicate SameShape(a: seq<Node>, b: seq<Node>) {
    SameLinks(a, b)
    && forall i :: 0 <= i < |a| ==> a[i].url == b[i].url && a[i].depth == b[i].depth && a[i].children == b[i].children
  }

  lemma HasIdSameLinks(a: seq<Node>, b: seq<Node>, id: Id)
    requires SameLinks(a, b)
    ensures HasId(a, id) <==> HasId(b, id)
  {
    if HasId(a, id) {
      var j :| 0 <= j < |a| && a[j].id == id;
      assert b[j].id == id;
    }
    if HasId(b, id) {
      var j :| 0 <= j < |b| && b[j].id == id;
      assert a[j].id == id;
    }
  }

  /** Changing only visit counts and viewing flags keeps every node rule. */
  lemma ShapeKeepsRules(a: seq<Node>, b: seq<Node>)
    requires SameShape(a, b) && NodeRules(a)
    ensures NodeRules(b)
  {
    forall i: nat | i < |b| ensures Placed(b, i) {
      assert Placed(a, i);
      if Truthy(b[i].parentId) {
        var p := b[i].parentId.value;
        HasIdSameLinks(a, b, p);
        FindIndexSameLinks(a, b, p);
      }
    }
    forall i | 0 <= i < |b| ensures b[i].children == ChildIds(b, b[i].id) {
      ChildIdsSameLinks(a, b, b[i].id);
    }
  }

  /** A state stays valid when only flags change, every path id names an old
      node, and the viewed node is the new tip. */
  lemma ShapeKeepsValid(s: State, r: State)
    requires NodeRules(s.nodes) && SameShape(s.nodes, r.nodes)
    requires forall k :: 0 <= k < |r.path| ==> HasId(s.nodes, r.path[k])
    requires |r.path| > 0 || |s.nodes| == 0
    requires ViewingRule(r)
    ensures Valid(r)
  {
    ShapeKeepsRules(s.nodes, r.nodes);
    forall k | 0 <= k < |r.path| ensures HasId(r.nodes, r.path[k]) {
      HasIdSameLinks(s.nodes, r.nodes, r.path[k]);
    }
    if |r.path| > 0 {
      assert HasId(s.nodes, r.path[0]);
    }
  }

  /** Cutting the path back to its first `n` entries and viewing the new tip
      keeps a state valid: the step shared by going back and by a breadcrumb click. */
  lemma PrefixViewValid(s: State, r: State, n: nat)
    requires NodeRules(s.nodes) && PathResolves(s) && 0 < n <= |s.path|
    requires r.path == s.path[..n] && r.nodes == ViewOnly(s.nodes, s.path[n - 1])
    ensures Valid(r)
  {
    assert forall k :: 0 <= k < |r.path| ==> r.path[k] == s.path[k];
    ShapeKeepsValid(s, r);
  }

  // ---------------------------------------------------------------------
  // Preservation, handler by handler
  // ---------------------------------------------------------------------

  lemma EmptyValid()
    ensures Valid(Empty)
  {
  }

  /** `clearGraph` yields a valid state from any state. */
  lemma ClearGraphValid(s: State)
    ensures Valid(ClearGraph(s))
  {
  }

  /** `handleNodeClick` changes nothing the rules speak of. */
  lemma SelectNodeValid(s: State, node: Node)
    requires Valid(s)
    ensures Valid(SelectNode(s, node))
  {
  }

  /** The revisit branch keeps the state valid. */
  lemma RevisitValid(s: State, k: nat, parentId: Option<Id>)
    requires Valid(s) && k < |s.nodes|
    ensures Valid(Revisit(s, s.nodes[k], parentId))
  {
    var r := Revisit(s, s.nodes[k], parentId);
    RevisitPath(s, k, parentId);
    ShapeKeepsValid(s, r);
  }

  /** Every id on the path after a revisit names an old node. */
  lemma RevisitPath(s: State, k: nat, parentId: Option<Id>)
    requires PathResolves(s) && k < |s.nodes|
    ensures forall m :: 0 <= m < |Revisit(s, s.nodes[k], parentId).path| ==>
      HasId(s.nodes, Revisit(s, s.nodes[k], parentId).path[m])
  {
    var p := Revisit(s, s.nodes[k], parentId).path;
    forall m | 0 <= m < |p| ensures HasId(s.nodes, p[m]) {
      if m < |p| - 1 {
        assert p[m] == s.path[m];
      }
    }
  }

  /** `handleGoBack` keeps the state valid, and after a step back the
      selection is the node at the new tip. */
  lemma GoBackValid(s: State)
    requires Valid(s)
    ensures Valid(GoBack(s))
    ensures |s.path| > 1 ==> GoBack(s).selected.Some? && GoBack(s).selected.value.id == GoBack(s).path[|GoBack(s).path| - 1]
  {
    if |s.path| > 1 {
      PrefixViewValid(s, GoBack(s), |s.path| - 1);
      assert HasId(s.nodes, s.path[|s.path| - 2]);
    }
  }

  /** `handleBreadcrumbNodeClick` keeps the state valid. */
  lemma BreadcrumbClickValid(s: State, clicked: Node)
    requires Valid(s)
    ensures Valid(BreadcrumbClick(s, clicked))
  {
    if clicked.id in s.path {
      PrefixViewValid(s, BreadcrumbClick(s, clicked), IndexOf(s.path, clicked.id).value + 1);
    }
  }

  // ---------------------------------------------------------------------
  // The new-node branch
  // ---------------------------------------------------------------------

  /** The new-node branch node by node: old nodes lose the viewing flag and
      only the parent's child list changes, by gaining the new id; the new
      node comes last, viewed, with no children of its own. */
  lemma InsertNodes(s: State, title: string, url: string, parentId: Option<Id>, freshId: Id)
    ensures |Insert(s, title, url, parentId, freshId).nodes| == |s.nodes| + 1
    ensures forall i :: 0 <= i < |s.nodes| ==>
      Insert(s, title, url, parentId, freshId).nodes[i]
      == s.nodes[i].(viewing := false, children := Adopted(s.nodes[i], parentId, freshId))
    ensures Insert(s, title, url, parentId, freshId).nodes[|s.nodes|]
      == CreateNode(freshId, title, url, parentId, NewDepth(s.nodes, parentId))
           .(viewing := true, children := if Truthy(parentId) && parentId.value == freshId then [freshId] else [])
  {
    var created := CreateNode(freshId, title, url, parentId, NewDepth(s.nodes, parentId));
    var cleared := seq(|s.nodes|, i requires 0 <= i < |s.nodes| => s.nodes[i].(viewing := false));
    var updated := cleared + [created.(viewing := true)];
    var r := Insert(s, title, url, parentId, freshId).nodes;
    assert r == if Truthy(parentId) then Adopt(updated, parentId.value, freshId) else updated;
    forall i | 0 <= i < |s.nodes|
      ensures r[i] == s.nodes[i].(viewing := false, children := Adopted(s.nodes[i], parentId, freshId))
    {
      assert updated[i] == s.nodes[i].(viewing := false);
    }
    assert updated[|s.nodes|] == created.(viewing := true);
  }

  /** The child list node `n` ends up with when `child` is added under `parentId`. */
  function Adopted(n: Node, parentId: Option<Id>, child: Id): (c: seq<Id>)
    ensures !Truthy(parentId) || parentId.value != n.id ==> c == n.children
    ensures Truthy(parentId) && parentId.value == n.id ==> c == n.children + [child]
  {
    if Truthy(parentId) && parentId.value == n.id then n.children + [child] else n.children
  }

  /** A lookup by an id already present ignores anything appended after it. */
  lemma FindIndexExtended(a: seq<Node>, b: seq<Node>, id: Id)
    requires |a| <= |b| && forall i :: 0 <= i < |a| ==> a[i].id == b[i].id
    requires HasId(a, id)
    ensures FindIndex(b, id) == FindIndex(a, id)
  {
    var j := FindIndex(a, id).value;
    assert b[j].id == id;
  }

  /** No node names a fresh id as its parent. */
  lemma NoChildrenOfFresh(nodes: seq<Node>, freshId: Id)
    requires DepthRule(nodes) && freshId != "" && !HasId(nodes, freshId)
    ensures ChildIds(nodes, freshId) == []
  {
    forall j | 0 <= j < |nodes| ensures nodes[j].parentId != Some(freshId) {
      assert Placed(nodes, j);
    }
    ChildIdsNone(nodes, freshId);
  }

  lemma InsertIdsUrls(s: State, title: string, url: string, parentId: Option<Id>, freshId: Id)
    requires Valid(s) && AddAdmissible(s, parentId, freshId) && !HasUrl(s.nodes, url)
    ensures UniqueIds(Insert(s, title, url, parentId, freshId).nodes)
    ensures NonEmptyIds(Insert(s, title, url, parentId, freshId).nodes)
    ensures UniqueUrls(Insert(s, title, url, parentId, freshId).nodes)
  {
    var r := Insert(s, title, url, parentId, freshId).nodes;
    InsertNodes(s, title, url, parentId, freshId);
    var n := |s.nodes|;
    forall i, j | 0 <= i < j < |r| ensures r[i].id != r[j].id && r[i].url != r[j].url {
      if j == n {
        assert r[i].id == s.nodes[i].id;
        assert r[i].url == s.nodes[i].url;
      }
    }
  }

  lemma InsertDepths(s: State, title: string, url: string, parentId: Option<Id>, freshId: Id)
    requires DepthRule(s.nodes) && DepthBound(s.nodes) && AddAdmissible(s, parentId, freshId)
    ensures DepthRule(Insert(s, title, url, parentId, freshId).nodes)
    ensures DepthBound(Insert(s, title, url, parentId, freshId).nodes)
  {
    var r := Insert(s, title, url, parentId, freshId).nodes;
    InsertNodes(s, title, url, parentId, freshId);
    var n := |s.nodes|;
    assert forall i :: 0 <= i < n ==> r[i].id == s.nodes[i].id;
    forall i: nat | i < |r| ensures Placed(r, i) && r[i].depth < |r| {
      if i < n {
        assert Placed(s.nodes, i);
        if Truthy(r[i].parentId) {
          FindIndexExtended(s.nodes, r, r[i].parentId.value);
        }
      } else if Truthy(parentId) {
        FindIndexExtended(s.nodes, r, parentId.value);
      }
    }
  }

  lemma InsertChildren(s: State, title: string, url: string, parentId: Option<Id>, freshId: Id)
    requires ChildrenRule(s.nodes) && DepthRule(s.nodes) && NonEmptyIds(s.nodes)
    requires AddAdmissible(s, parentId, freshId)
    ensures ChildrenRule(Insert(s, title, url, parentId, freshId).nodes)
  {
    var r := Insert(s, title, url, parentId, freshId).nodes;
    InsertNodes(s, title, url, parentId, freshId);
    var n := |s.nodes|;
    var x := r[n];
    assert SameLinks(r, s.nodes + [x]);
    forall i | 0 <= i < |r| ensures r[i].children == ChildIds(r, r[i].id) {
      ChildIdsSameLinks(r, s.nodes + [x], r[i].id);
      ChildIdsAppend(s.nodes, x, r[i].id);
      if i == n {
        NoChildrenOfFresh(s.nodes, freshId);
      }
    }
  }

  /** The new-node branch keeps the state valid. */
  lemma InsertValid(s: State, title: string, url: string, parentId: Option<Id>, freshId: Id)
    requires Valid(s) && AddAdmissible(s, parentId, freshId) && !HasUrl(s.nodes, url)
    ensures Valid(Insert(s, title, url, parentId, freshId))
  {
    InsertIdsUrls(s, title, url, parentId, freshId);
    InsertDepths(s, title, url, parentId, freshId);
    InsertChildren(s, title, url, parentId, freshId);
    InsertPathViewing(s, title, url, parentId, freshId);
  }

  lemma InsertPathViewing(s: State, title: string, url: string, parentId: Option<Id>, freshId: Id)
    requires PathResolves(s) && AddAdmissible(s, parentId, freshId)
    ensures PathResolves(Insert(s, title, url, parentId, freshId))
    ensures ViewingRule(Insert(s, title, url, parentId, freshId))
    ensures |Insert(s, title, url, parentId, freshId).path| > 0
  {
    var r := Insert(s, title, url, parentId, freshId);
    InsertNodes(s, title, url, parentId, freshId);
    var n := |s.nodes|;
    forall k | 0 <= k < |r.path| ensures HasId(r.nodes, r.path[k]) {
      if k < |r.path| - 1 {
        assert r.path[k] == s.path[k];
        var j :| 0 <= j < n && s.nodes[j].id == s.path[k];
        assert r.nodes[j].id == s.path[k];
      } else {
        assert r.nodes[n].id == r.path[k];
      }
    }
  }

  /** `addNode` keeps the state valid whenever its caller's guarantees hold. */
  lemma AddNodeValid(s: State, url: string, parentId: Option<Id>, freshId: Id)
    requires Valid(s) && AddAdmissible(s, parentId, freshId)
    ensures AddNode(s, url, parentId, freshId).Success? ==> Valid(AddNode(s, url, parentId, freshId).value)
  {
    if AddNode(s, url, parentId, freshId).Success? {
      if HasUrl(s.nodes, url) {
        RevisitValid(s, FindUrlIndex(s.nodes, url).value, parentId);
      } else {
        InsertValid(s, RequireTitle(url).value, url, parentId, freshId);
      }
    }
  }

  // ---------------------------------------------------------------------
  // Consequences of validity
  // ---------------------------------------------------------------------

  /** Exactly one node is viewed when there are nodes, and none otherwise. */
  lemma ViewedNodeUnique(s: State)
    requires Valid(s)
    ensures forall i, j :: 0 <= i < |s.nodes| && 0 <= j < |s.nodes| && s.nodes[i].viewing && s.nodes[j].viewing ==> i == j
    ensures (exists i :: 0 <= i < |s.nodes| && s.nodes[i].viewing) <==> |s.nodes| > 0
  {
    if |s.nodes| > 0 {
      assert HasId(s.nodes, s.path[|s.path| - 1]);
    }
  }

  /** Child lists and parent links agree in both directions. */
  lemma ChildrenMatchParents(s: State, i: nat, c: Id)
    requires Valid(s) && i < |s.nodes|
    ensures c in s.nodes[i].children <==>
      exists j :: 0 <= j < |s.nodes| && s.nodes[j].id == c && s.nodes[j].parentId == Some(s.nodes[i].id)
  {
  }

  /** Every named parent exists, one level up. */
  lemma ParentIsOneUp(s: State, i: nat)
    requires Valid(s) && i < |s.nodes| && Truthy(s.nodes[i].parentId)
    ensures exists j :: 0 <= j < |s.nodes| && s.nodes[j].id == s.nodes[i].parentId.value && s.nodes[i].depth == s.nodes[j].depth + 1
  {
    assert Placed(s.nodes, i);
    var j := FindIndex(s.nodes, s.nodes[i].parentId.value).value;
    assert s.nodes[j].id == s.nodes[i].parentId.value;
  }

  /** In a valid state the breadcrumb shows one node per path entry. */
  lemma PathNodesComplete(s: State)
    requires Valid(s)
    ensures |CurrentPathNodes(s.nodes, s.path)| == |s.path|
    ensures forall k :: 0 <= k < |s.path| ==> CurrentPathNodes(s.nodes, s.path)[k].id == s.path[k]
  {
  }

  // ---------------------------------------------------------------------
  // addNode in detail
  // ---------------------------------------------------------------------

  /** Re-adding a known URL keeps the node count and the node's article
      fields, bumps its visit count, and makes it the only viewed node. */
  lemma RevisitBumpsCount(s: State, url: string, parentId: Option<Id>, freshId: Id)
    requires UniqueIds(s.nodes) && HasUrl(s.nodes, url) && RequireTitle(url).Success?
    ensures AddNode(s, url, parentId, freshId).Success?
    ensures var r := AddNode(s, url, parentId, freshId).value;
      var k := FindUrlIndex(s.nodes, url).value;
      |r.nodes| == |s.nodes|
      && SameArticle(r.nodes[k], s.nodes[k])
      && r.nodes[k].visitCount == Bump(s.nodes[k].visitCount)
      && (forall i :: 0 <= i < |r.nodes| ==> (r.nodes[i].viewing <==> i == k))
      && r.path == ExtendPath(s.path, s.nodes[k].id, parentId)
  {
    var k := FindUrlIndex(s.nodes, url).value;
    RevisitViewsOne(s, k, parentId);
  }

  /** With unique ids, revisiting node `k` views exactly that node. */
  lemma RevisitViewsOne(s: State, k: nat, parentId: Option<Id>)
    requires UniqueIds(s.nodes) && k < |s.nodes|
    ensures forall i :: 0 <= i < |s.nodes| ==> (Revisit(s, s.nodes[k], parentId).nodes[i].viewing <==> i == k)
  {
    var r := Revisit(s, s.nodes[k], parentId);
    forall i | 0 <= i < |s.nodes| ensures r.nodes[i].viewing <==> i == k {
      if i != k {
        assert s.nodes[i].id != s.nodes[k].id;
      }
    }
  }

  /** A URL not yet recorded becomes a new node at the end of the list. */
  lemma NewUrlAppends(s: State, url: string, parentId: Option<Id>, freshId: Id)
    requires !HasUrl(s.nodes, url) && RequireTitle(url).Success?
    ensures AddNode(s, url, parentId, freshId).Success?
    ensures var r := AddNode(s, url, parentId, freshId).value;
      |r.nodes| == |s.nodes| + 1
      && r.nodes[|s.nodes|].id == freshId && r.nodes[|s.nodes|].url == url
      && r.nodes[|s.nodes|].parentId == parentId && r.nodes[|s.nodes|].viewing
      && r.nodes[|s.nodes|].depth == NewDepth(s.nodes, parentId)
      && (forall i :: 0 <= i < |s.nodes| ==> !r.nodes[i].viewing && r.nodes[i].url == s.nodes[i].url)
      && r.path == ExtendPath(s.path, freshId, parentId)
  {
    InsertNodes(s, RequireTitle(url).value, url, parentId, freshId);
  }

  /** `addNode` never records a URL twice, whatever ids and parents it is given. */
  lemma AddNodeKeepsUrlsUnique(s: State, url: string, parentId: Option<Id>, freshId: Id)
    requires UniqueUrls(s.nodes)
    ensures AddNode(s, url, parentId, freshId).Success? ==> UniqueUrls(AddNode(s, url, parentId, freshId).value.nodes)
  {
    if AddNode(s, url, parentId, freshId).Success? && !HasUrl(s.nodes, url) {
      var r := AddNode(s, url, parentId, freshId).value;
      InsertNodes(s, RequireTitle(url).value, url, parentId, freshId);
      forall i, j | 0 <= i < j < |r.nodes| ensures r.nodes[i].url != r.nodes[j].url {
        if j == |s.nodes| {
          assert r.nodes[i].url == s.nodes[i].url;
        }
      }
    }
  }

  // ---------------------------------------------------------------------
  // Sessions: sequences of user events
  // ---------------------------------------------------------------------

  /** One user action: submitting a URL (optionally under a parent, with the
      id the generator would hand out), stepping back, clicking a
      breadcrumb, clicking a tree node, or clearing the history. */
  datatype Event =
    | Add(url: string, parentId: Option<Id>, freshId: Id)
    | Back
    | Crumb(clicked: Node)
    | Select(node: Node)
    | Clear

  /** One event's effect. A failed add throws before any setter runs. */
  function Step(s: State, e: Event): (r: State)
    ensures e.Add? && RequireTitle(e.url).Failure? ==> r == s
    ensures e.Add? && RequireTitle(e.url).Success? ==> |r.path| > 0 && r.path[|r.path| - 1] in (set n | n in r.nodes :: n.id)
  {
    match e
    case Add(url, parentId, freshId) =>
      (match AddNode(s, url, parentId, freshId)
       case Success(next) => AddedTipExists(s, url, parentId, freshId); next
       case Failure(_) => s)
    case Back => GoBack(s)
    case Crumb(clicked) => BreadcrumbClick(s, clicked)
    case Select(node) => SelectNode(s, node)
    case Clear => ClearGraph(s)
  }

  /** After a successful add the tip of the path is a recorded node. */
  lemma AddedTipExists(s: State, url: string, parentId: Option<Id>, freshId: Id)
    requires AddNode(s, url, parentId, freshId).Success?
    ensures var r := AddNode(s, url, parentId, freshId).value;
      |r.path| > 0 && r.path[|r.path| - 1] in (set n | n in r.nodes :: n.id)
  {
    var r := AddNode(s, url, parentId, freshId).value;
    if HasUrl(s.nodes, url) {
      var k := FindUrlIndex(s.nodes, url).value;
      assert r.nodes[k] in r.nodes;
    } else {
      InsertNodes(s, RequireTitle(url).value, url, parentId, freshId);
      assert r.nodes[|s.nodes|] in r.nodes;
    }
  }

  function Run(s: State, events: seq<Event>): State
    decreases |events|
  {
    if |events| == 0 then s else Run(Step(s, events[0]), events[1..])
  }

  /** Every add in the run gets a fresh id and, when it names one, an existing parent. */
  predicate Admissible(s: State, events: seq<Event>)
    decreases |events|
  {
    |events| == 0
    || ((events[0].Add? ==> AddAdmissible(s, events[0].parentId, events[0].freshId))
        && Admissible(Step(s, events[0]), events[1..]))
  }

  lemma StepValid(s: State, e: Event)
    requires Valid(s) && (e.Add? ==> AddAdmissible(s, e.parentId, e.freshId))
    ensures Valid(Step(s, e))
  {
    match e
    case Add(url, parentId, freshId) => AddNodeValid(s, url, parentId, freshId);
    case Back => GoBackValid(s);
    case Crumb(clicked) => BreadcrumbClickValid(s, clicked);
    case Select(node) => SelectNodeValid(s, node);
    case Clear => ClearGraphValid(s);
  }

  /** Every admissible session keeps the state valid. */
  lemma {:induction false} RunValid(s: State, events: seq<Event>)
    requires Valid(s) && Admissible(s, events)
    ensures Valid(Run(s, events))
    decreases |events|
  {
    if |events| > 0 {
      StepValid(s, events[0]);
      RunValid(Step(s, events[0]), events[1..]);
    }
  }

  /** URLs stay pairwise distinct across any session, admissible or not. */
  lemma {:induction false} RunKeepsUrlsUnique(s: State, events: seq<Event>)
    requires UniqueUrls(s.nodes)
    ensures UniqueUrls(Run(s, events).nodes)
    decreases |events|
  {
    if |events| > 0 {
      var e := events[0];
      var next := Step(s, e);
      assert UniqueUrls(next.nodes) by {
        match e
        case Add(url, parentId, freshId) => AddNodeKeepsUrlsUnique(s, url, parentId, freshId);
        case Back =>
        case Crumb(clicked) =>
        case Select(node) =>
        case Clear =>
      }
      RunKeepsUrlsUnique(next, events[1..]);
    }
  }

  predicate CountsUndefined(nodes: seq<Node>) {
    forall i :: 0 <= i < |nodes| ==> nodes[i].visitCount.None?
  }

  lemma StepNeverCounts(s: State, e: Event)
    requires CountsUndefined(s.nodes)
    ensures CountsUndefined(Step(s, e).nodes)
  {
    match e
    case Add(url, parentId, freshId) => AddNeverCounts(s, url, parentId, freshId);
    case Back => if |s.path| > 1 { ViewOnlyNeverCounts(s.nodes, s.path[|s.path| - 2]); }
    case Crumb(clicked) => ViewOnlyNeverCounts(s.nodes, clicked.id);
    case Select(node) =>
    case Clear =>
  }

  lemma AddNeverCounts(s: State, url: string, parentId: Option<Id>, freshId: Id)
    requires CountsUndefined(s.nodes)
    ensures AddNode(s, url, parentId, freshId).Success? ==> CountsUndefined(AddNode(s, url, parentId, freshId).value.nodes)
  {
    if AddNode(s, url, parentId, freshId).Success? {
      if HasUrl(s.nodes, url) {
        RevisitNeverCounts(s, s.nodes[FindUrlIndex(s.nodes, url).value], parentId);
      } else {
        InsertNeverCounts(s, RequireTitle(url).value, url, parentId, freshId);
      }
    }
  }

  lemma RevisitNeverCounts(s: State, existing: Node, parentId: Option<Id>)
    requires CountsUndefined(s.nodes)
    ensures CountsUndefined(Revisit(s, existing, parentId).nodes)
  {
    var r := Revisit(s, existing, parentId);
    forall i | 0 <= i < |r.nodes| ensures r.nodes[i].visitCount.None? {
      assert s.nodes[i].visitCount.None?;
    }
  }

  lemma InsertNeverCounts(s: State, title: string, url: string, parentId: Option<Id>, freshId: Id)
    requires CountsUndefined(s.nodes)
    ensures CountsUndefined(Insert(s, title, url, parentId, freshId).nodes)
  {
    var r := Insert(s, title, url, parentId, freshId);
    forall i | 0 <= i < |r.nodes| ensures r.nodes[i].visitCount.None? {
      if i < |s.nodes| {
        assert s.nodes[i].visitCount.None?;
      }
    }
  }

  lemma ViewOnlyNeverCounts(nodes: seq<Node>, id: Id)
    requires CountsUndefined(nodes)
    ensures CountsUndefined(ViewOnly(nodes, id))
  {
    var r := ViewOnly(nodes, id);
    forall i | 0 <= i < |r| ensures r[i].visitCount.None? {
      assert r[i] == nodes[i].(viewing := r[i].viewing);
    }
  }

  /** New nodes are created without a visit count and `undefined + 1` is NaN,
      so no node ever gets a numeric visit count. */
  lemma {:induction false} RunNeverCounts(s: State, events: seq<Event>)
    requires CountsUndefined(s.nodes)
    ensures CountsUndefined(Run(s, events).nodes)
    decreases |events|
  {
    if |events| > 0 {
      var e := events[0];
      var next := Step(s, e);
      StepNeverCounts(s, e);
      RunNeverCounts(next, events[1..]);
    }
  }
}
