/** The browsing-history state of the application component and its event
    handlers, each an atomic transition from one state to the next. A
    handler's several state setters are applied together, as one render. */
module App {
  import opened Wrappers
  import opened WikiTypes
  import opened WikiService
  import UriDecode

  /** The three pieces of component state: every visited article, the
      breadcrumb path of node ids, and the node shown in the details pane. */
  datatype State = State(nodes: seq<Node>, path: seq<Id>, selected: Option<Node>)

  /** The state on first render and after the history is cleared. */
  const Empty := State([], [], None)

  /** Why `addNode` throws: no usable title, or a malformed percent-escape
      that `decodeURIComponent` rejects. */
  datatype AddError = InvalidUrl | MalformedEscape(cause: UriDecode.UriError)

  /** JavaScript truthiness of an optional parent id: absent and empty are falsy. */
  predicate Truthy(parentId: Option<Id>) {
    parentId.Some? && parentId.value != ""
  }

  /** `visitCount + 1`; an undefined count stays NaN. */
  function Bump(count: Option<nat>): (r: Option<nat>)
    ensures r.Some? <==> count.Some?
    ensures count.Some? ==> r == Some(count.value + 1)
  {
    match count
    case None => None
    case Some(k) => Some(k + 1)
  }

  predicate HasUrl(nodes: seq<Node>, url: string) {
    exists j :: 0 <= j < |nodes| && nodes[j].url == url
  }

  /** Index of the first node recorded for `url` (`nodes.find(node => node.url === url)`). */
  function FindUrlIndex(nodes: seq<Node>, url: string): (r: Option<nat>)
    ensures r.Some? ==> r.value < |nodes| && nodes[r.value].url == url
    ensures r.Some? ==> forall j :: 0 <= j < r.value ==> nodes[j].url != url
    ensures r.None? <==> !HasUrl(nodes, url)
  {
    if |nodes| == 0 then None
    else if nodes[0].url == url then Some(0)
    else
      match FindUrlIndex(nodes[1..], url)
      case None => None
      case Some(i) => Some(i + 1)
  }

  /** Index of the first occurrence of `id` in the path (`currentPath.indexOf(id)`). */
  function IndexOf(path: seq<Id>, id: Id): (r: Option<nat>)
    ensures r.Some? ==> r.value < |path| && path[r.value] == id
    ensures r.Some? ==> forall j :: 0 <= j < r.value ==> path[j] != id
    ensures r.None? <==> id !in path
  {
    if |path| == 0 then None
    else if path[0] == id then Some(0)
    else
      match IndexOf(path[1..], id)
      case None => None
      case Some(i) => Some(i + 1)
  }

  /** The article fields: everything but the visit count and the viewing flag. */
  predicate SameArticle(a: Node, b: Node) {
    a.id == b.id && a.title == b.title && a.url == b.url && a.language == b.language
    && a.parentId == b.parentId && a.children == b.children && a.depth == b.depth
  }

  /** Marks exactly the nodes with id `id` as being viewed. */
  function ViewOnly(nodes: seq<Node>, id: Id): (r: seq<Node>)
    ensures |r| == |nodes|
    ensures forall i :: 0 <= i < |nodes| ==> r[i].viewing == (nodes[i].id == id)
    ensures forall i :: 0 <= i < |nodes| ==> r[i] == nodes[i].(viewing := r[i].viewing)
  {
    seq(|nodes|, i requires 0 <= i < |nodes| => nodes[i].(viewing := nodes[i].id == id))
  }

  /** The new path: appended to when the visit came from a parent, else restarted. */
  function ExtendPath(path: seq<Id>, id: Id, parentId: Option<Id>): (r: seq<Id>)
    ensures |r| > 0 && r[|r| - 1] == id
    ensures Truthy(parentId) ==> r[..|r| - 1] == path
    ensures !Truthy(parentId) ==> r == [id]
  {
    if Truthy(parentId) then path + [id] else [id]
  }

  // ---------------------------------------------------------------------
  // addNode
  // ---------------------------------------------------------------------

  /** The title check at the top of `addNode`: a thrown decode error
      propagates, and an absent or empty title is an invalid URL. */
  function RequireTitle(url: string): (r: Result<string, AddError>)
    ensures r.Success? <==> ExtractTitle(url).Success? && ExtractTitle(url).value.Some? && ExtractTitle(url).value.value != ""
    ensures r.Success? ==> Some(r.value) == ExtractTitle(url).value
    ensures r.Failure? ==> (r.error.MalformedEscape? <==> ExtractTitle(url).Failure?)
  {
    match ExtractTitle(url)
    case Failure(e) => Failure(MalformedEscape(e))
    case Success(None) => Failure(InvalidUrl)
    case Success(Some(t)) => if t == "" then Failure(InvalidUrl) else Success(t)
  }

  /** The revisit branch: the matching node's count is bumped and it alone is
      viewed; the path gains its id; the selection is the record as it was
      before the update. */
  function Revisit(s: State, existing: Node, parentId: Option<Id>): (r: State)
    ensures |r.nodes| == |s.nodes|
    ensures forall i :: 0 <= i < |s.nodes| ==> SameArticle(r.nodes[i], s.nodes[i])
    ensures forall i :: 0 <= i < |s.nodes| ==> r.nodes[i].viewing == (s.nodes[i].id == existing.id)
    ensures forall i :: 0 <= i < |s.nodes| ==>
      r.nodes[i].visitCount == (if s.nodes[i].id == existing.id then Bump(s.nodes[i].visitCount) else s.nodes[i].visitCount)
    ensures r.path == ExtendPath(s.path, existing.id, parentId)
    ensures r.selected == Some(existing)
  {
    var nodes := seq(|s.nodes|, i requires 0 <= i < |s.nodes| =>
      if s.nodes[i].id == existing.id then s.nodes[i].(visitCount := Bump(s.nodes[i].visitCount), viewing := true)
      else s.nodes[i].(viewing := false));
    State(nodes, ExtendPath(s.path, existing.id, parentId), Some(existing))
  }

  /** Depth of a new node: one below its parent, an unknown parent counting
      as depth 0, and 0 without a parent. */
  function NewDepth(nodes: seq<Node>, parentId: Option<Id>): (d: nat)
    ensures !Truthy(parentId) ==> d == 0
    ensures Truthy(parentId) && HasId(nodes, parentId.value) ==> d == FindById(nodes, parentId.value).value.depth + 1
    ensures Truthy(parentId) && !HasId(nodes, parentId.value) ==> d == 1
  {
    if Truthy(parentId) then
      (match FindById(nodes, parentId.value) case Some(p) => p.depth case None => 0) + 1
    else 0
  }

  /** Appends `child` to the child list of every node with id `parent`. */
  function Adopt(nodes: seq<Node>, parent: Id, child: Id): (r: seq<Node>)
    ensures |r| == |nodes|
    ensures forall i :: 0 <= i < |nodes| ==>
      r[i].children == (if nodes[i].id == parent then nodes[i].children + [child] else nodes[i].children)
    ensures forall i :: 0 <= i < |nodes| ==> r[i] == nodes[i].(children := r[i].children)
  {
    seq(|nodes|, i requires 0 <= i < |nodes| =>
      if nodes[i].id == parent then nodes[i].(children := nodes[i].children + [child]) else nodes[i])
  }

  /** The new-node branch: every old node stops being viewed, the new node is
      appended as the viewed one, and a truthy parent id adopts it. */
  function Insert(s: State, title: string, url: string, parentId: Option<Id>, freshId: Id): (r: State)
    ensures |r.nodes| == |s.nodes| + 1
    ensures r.path == ExtendPath(s.path, freshId, parentId)
    ensures r.selected.Some? && r.selected.value.id == freshId && r.selected.value.url == url
    ensures r.selected.value.depth == NewDepth(s.nodes, parentId)
    ensures forall i :: 0 <= i < |s.nodes| ==> r.nodes[i].visitCount == s.nodes[i].visitCount
    ensures r.nodes[|s.nodes|].visitCount.None?
  {
    var created := CreateNode(freshId, title, url, parentId, NewDepth(s.nodes, parentId));
    var cleared := seq(|s.nodes|, i requires 0 <= i < |s.nodes| => s.nodes[i].(viewing := false));
    var updated := cleared + [created.(viewing := true)];
    var nodes := if Truthy(parentId) then Adopt(updated, parentId.value, freshId) else updated;
    State(nodes, ExtendPath(s.path, freshId, parentId), Some(created))
  }

  /** `addNode(url, parentId)`; `freshId` is the id the generator would hand out. */
  function AddNode(s: State, url: string, parentId: Option<Id>, freshId: Id): (r: Result<State, AddError>)
    ensures r.Failure? <==> RequireTitle(url).Failure?
    ensures r.Failure? ==> r.error == RequireTitle(url).error
    ensures r.Success? && HasUrl(s.nodes, url) ==> r.value == Revisit(s, s.nodes[FindUrlIndex(s.nodes, url).value], parentId)
    ensures r.Success? && !HasUrl(s.nodes, url) ==> r.value == Insert(s, RequireTitle(url).value, url, parentId, freshId)
  {
    var title :- RequireTitle(url);
    match FindUrlIndex(s.nodes, url)
    case Some(i) => Success(Revisit(s, s.nodes[i], parentId))
    case None => Success(Insert(s, title, url, parentId, freshId))
  }

  // ---------------------------------------------------------------------
  // Navigation
  // ---------------------------------------------------------------------

  /** `handleGoBack`: drops the last breadcrumb when at least two remain. */
  function GoBack(s: State): (r: State)
    ensures |s.path| <= 1 ==> r == s
    ensures |s.path| > 1 ==> r.path == s.path[..|s.path| - 1]
    ensures |s.path| > 1 ==> r.nodes == ViewOnly(s.nodes, s.path[|s.path| - 2])
    ensures |s.path| > 1 ==> r.selected == FindById(s.nodes, s.path[|s.path| - 2])
  {
    if |s.path| > 1 then
      var path := s.path[..|s.path| - 1];
      var previous := path[|path| - 1];
      State(ViewOnly(s.nodes, previous), path, FindById(s.nodes, previous))
    else s
  }

  /** `handleBreadcrumbNodeClick`: cuts the path just after the first
      occurrence of the clicked node's id; a node not on the path changes nothing. */
  function BreadcrumbClick(s: State, clicked: Node): (r: State)
    ensures clicked.id !in s.path ==> r == s
    ensures clicked.id in s.path ==> r.path == s.path[..IndexOf(s.path, clicked.id).value + 1]
    ensures clicked.id in s.path ==> r.nodes == ViewOnly(s.nodes, clicked.id) && r.selected == Some(clicked)
  {
    match IndexOf(s.path, clicked.id)
    case None => s
    case Some(k) => State(ViewOnly(s.nodes, clicked.id), s.path[..k + 1], Some(clicked))
  }

  /** `handleNodeClick`: only the selection changes. */
  function SelectNode(s: State, node: Node): (r: State)
    ensures r.nodes == s.nodes && r.path == s.path && r.selected == Some(node)
  {
    s.(selected := Some(node))
  }

  /** `clearGraph`. */
  function ClearGraph(s: State): (r: State)
    ensures r.nodes == [] && r.path == [] && r.selected.None?
  {
    Empty
  }

  /** `getCurrentPathNodes`: the node for each path id, ids with no node dropped. */
  function CurrentPathNodes(nodes: seq<Node>, path: seq<Id>): (r: seq<Node>)
    ensures |r| <= |path|
    ensures forall n :: n in r ==> n in nodes && n.id in path
    ensures (forall k :: 0 <= k < |path| ==> HasId(nodes, path[k])) ==>
      |r| == |path| && forall k :: 0 <= k < |path| ==> r[k] == FindById(nodes, path[k]).value
  {
    if |path| == 0 then []
    else
      var rest := CurrentPathNodes(nodes, path[1..]);
      match FindById(nodes, path[0])
      case None => rest
      case Some(n) => [n] + rest
  }
}
