/** The record kept for each visited article, and the lookups over the flat
    node list that the application and the tree view share. */
module WikiTypes {
  import opened Wrappers

  /** Node identifiers are the opaque strings the id generator hands out. */
  type Id = string

  /** One visited article (`WikiNode`; the creation timestamp is left out).
      `visitCount` is `None` while the field is undefined or NaN, and
      `viewing` is `isCurrentlyViewing`, an undefined flag reading as false. */
  datatype Node = Node(
    id: Id,
    title: string,
    url: string,
    language: string,
    parentId: Option<Id>,
    children: seq<Id>,
    depth: nat,
    visitCount: Option<nat>,
    viewing: bool)

  predicate HasId(nodes: seq<Node>, id: Id) {
    exists j :: 0 <= j < |nodes| && nodes[j].id == id
  }

  predicate UniqueIds(nodes: seq<Node>) {
    forall i, j :: 0 <= i < j < |nodes| ==> nodes[i].id != nodes[j].id
  }

  /** Index of the first node with the given id (`nodes.find(n => n.id === id)`). */
  function FindIndex(nodes: seq<Node>, id: Id): (r: Option<nat>)
    ensures r.Some? ==> r.value < |nodes| && nodes[r.value].id == id
    ensures r.Some? ==> forall j :: 0 <= j < r.value ==> nodes[j].id != id
    ensures r.None? <==> !HasId(nodes, id)
  {
    if |nodes| == 0 then None
    else if nodes[0].id == id then Some(0)
    else
      match FindIndex(nodes[1..], id)
      case None => None
      case Some(i) => Some(i + 1)
  }

  function FindById(nodes: seq<Node>, id: Id): (r: Option<Node>)
    ensures r.Some? ==> r.value in nodes && r.value.id == id
    ensures r.None? <==> !HasId(nodes, id)
  {
    match FindIndex(nodes, id)
    case None => None
    case Some(i) => Some(nodes[i])
  }

  /** Ids of the nodes whose `parentId` is `id`, in list order
      (`nodes.filter(c => c.parentId === id).map(c => c.id)`). */
  function ChildIds(nodes: seq<Node>, id: Id): (r: seq<Id>)
    ensures |r| <= |nodes|
    ensures forall c :: c in r <==> exists j :: 0 <= j < |nodes| && nodes[j].parentId == Some(id) && nodes[j].id == c
  {
    if |nodes| == 0 then []
    else
      var rest := ChildIds(nodes[1..], id);
      assert forall c :: c in rest <==> exists j :: 1 <= j < |nodes| && nodes[j].parentId == Some(id) && nodes[j].id == c by {
        forall c | c in rest ensures exists j :: 1 <= j < |nodes| && nodes[j].parentId == Some(id) && nodes[j].id == c {
          var j :| 0 <= j < |nodes[1..]| && nodes[1..][j].parentId == Some(id) && nodes[1..][j].id == c;
          assert nodes[j + 1] == nodes[1..][j];
        }
        forall c | exists j :: 1 <= j < |nodes| && nodes[j].parentId == Some(id) && nodes[j].id == c ensures c in rest {
          var j :| 1 <= j < |nodes| && nodes[j].parentId == Some(id) && nodes[j].id == c;
          assert nodes[1..][j - 1] == nodes[j];
        }
      }
      (if nodes[0].parentId == Some(id) then [nodes[0].id] else []) + rest
  }

  /** Appending one node extends each child list by at most that node. */
  lemma {:induction false} ChildIdsAppend(nodes: seq<Node>, x: Node, id: Id)
    ensures ChildIds(nodes + [x], id) == ChildIds(nodes, id) + (if x.parentId == Some(id) then [x.id] else [])
  {
    if |nodes| > 0 {
      assert (nodes + [x])[1..] == nodes[1..] + [x];
      ChildIdsAppend(nodes[1..], x, id);
    } else {
      assert nodes + [x] == [x];
    }
  }

  /** A node nobody names as parent has no children. */
  lemma {:induction false} ChildIdsNone(nodes: seq<Node>, id: Id)
    requires forall j :: 0 <= j < |nodes| ==> nodes[j].parentId != Some(id)
    ensures ChildIds(nodes, id) == []
  {
    if |nodes| > 0 {
      ChildIdsNone(nodes[1..], id);
    }
  }

  /** Two node lists with the same ids and parent links, position by position. */
  predicate SameLinks(a: seq<Node>, b: seq<Node>) {
    |a| == |b| && forall i :: 0 <= i < |a| ==> a[i].id == b[i].id && a[i].parentId == b[i].parentId
  }

  /** Child lists depend only on ids and parent links. */
  lemma {:induction false} ChildIdsSameLinks(a: seq<Node>, b: seq<Node>, id: Id)
    requires SameLinks(a, b)
    ensures ChildIds(a, id) == ChildIds(b, id)
  {
    if |a| > 0 {
      ChildIdsSameLinks(a[1..], b[1..], id);
    }
  }

  /** Lookups by id depend only on the ids. */
  lemma {:induction false} FindIndexSameLinks(a: seq<Node>, b: seq<Node>, id: Id)
    requires SameLinks(a, b)
    ensures FindIndex(a, id) == FindIndex(b, id)
  {
    if |a| > 0 {
      FindIndexSameLinks(a[1..], b[1..], id);
    }
  }
}
