/** The parent-pointer nodes of the breadth-first search (src/FordFulkerson/SearchNode.js).

    The constructor as written takes `(id, depth, prev = null)`, while every caller in the
    search passes `(id)` or `(id, parent)`, and the constructor's own tests expect
    `(id, prev)` with a derived depth. Both readings are modelled: `ConstructAsWritten`
    is the three-argument constructor, `Construct` the two-argument one that the search
    relies on. */
module SearchNodes {
  import opened Results

  /** A node of the search: the graph node it stands for, its distance from the root and
      the node it was reached from. */
  datatype SearchNode = SearchNode(id: int, depth: int, prev: Option<SearchNode>)

  /** The JavaScript argument values the constructor distinguishes: a missing argument, a
      `null`, a number, or a search node. */
  datatype Arg<+N> = Undefined | Null | Num(n: int) | Ref(node: N)

  /** The graph node ids along the parent chain, root first. */
  function Ids(node: SearchNode): (r: seq<int>)
    ensures |r| >= 1 && r[|r| - 1] == node.id
  {
    match node.prev
    case None => [node.id]
    case Some(p) => Ids(p) + [node.id]
  }

  /** A root node, as `new SearchNode(starting_node_id)` means it. */
  function Root(id: int): SearchNode
  {
    SearchNode(id, 0, None)
  }

  /** A node reached from `parent`, as `new SearchNode(i, node)` means it. */
  function Child(id: int, parent: SearchNode): SearchNode
  {
    SearchNode(id, parent.depth + 1, Some(parent))
  }

  /** The depth field counts the links to the root. */
  predicate DepthConsistent(node: SearchNode)
  {
    node.depth == |Ids(node)| - 1 &&
    (node.prev.Some? ==> DepthConsistent(node.prev.value))
  }

  /** The constructor with the signature the search and the tests use: `(id, prev = null)`.
      A missing id is refused (id 0 is accepted), a `prev` that is neither null nor a node
      is refused, and otherwise the depth is one more than the parent's, or 0 for a root. */
  function Construct(id: Option<int>, prev: Arg<SearchNode>): (r: Result<SearchNode>)
    ensures id.None? ==> r == Err(Plain("Missing node 'id'"))
    ensures id.Some? && prev.Num? ==> r == Err(Plain("Invalid 'prev' is not of type 'SearchNode'"))
    ensures id.Some? && (prev.Undefined? || prev.Null?) ==> r == Ok(Root(id.value))
    ensures id.Some? && prev.Ref? ==> r == Ok(Child(id.value, prev.node))
    ensures r.Ok? && prev.Ref? && DepthConsistent(prev.node) ==> DepthConsistent(r.value)
  {
    if id.None? then Err(Plain("Missing node 'id'"))
    else match prev
      case Undefined => Ok(Root(id.value))
      case Null => Ok(Root(id.value))
      case Num(_) => Err(Plain("Invalid 'prev' is not of type 'SearchNode'"))
      case Ref(p) => Ok(Child(id.value, p))
  }

  /** A node the three-argument constructor builds: whatever was passed as depth is
      stored as the depth. */
  datatype StoredNode = StoredNode(id: Arg<StoredNode>, depth: Arg<StoredNode>, prev: Option<StoredNode>)

  /** `isNaN(x) && !x` on the modelled values: only a missing argument is refused (null
      and numbers convert to numbers; a node object is truthy). */
  predicate Missing<N>(x: Arg<N>)
  {
    x.Undefined?
  }

  /** The constructor as written: `(id, depth, prev = null)`. */
  function ConstructAsWritten(id: Arg<StoredNode>, depth: Arg<StoredNode>, prev: Arg<StoredNode>)
    : (r: Result<StoredNode>)
    ensures r.Ok? <==> !id.Undefined? && !depth.Undefined? && !prev.Num?
    ensures id.Undefined? ==> r == Err(Plain("Missing node 'id'"))
    ensures !id.Undefined? && depth.Undefined? ==> r == Err(Plain("Missing node 'depth'"))
    ensures r.Ok? ==> r.value.id == id && r.value.depth == depth
    ensures r.Ok? ==> (r.value.prev.Some? <==> prev.Ref?)
    ensures r.Ok? && prev.Ref? ==> r.value.prev == Some(prev.node)
  {
    if Missing(id) then Err(Plain("Missing node 'id'"))
    else if Missing(depth) then Err(Plain("Missing node 'depth'"))
    else match prev
      case Undefined => Ok(StoredNode(id, depth, None))
      case Null => Ok(StoredNode(id, depth, None))
      case Num(_) => Err(Plain("Invalid 'prev' is not of type 'SearchNode'"))
      case Ref(p) => Ok(StoredNode(id, depth, Some(p)))
  }

  /** The search starts with `new SearchNode(starting_node_id)`: under the three-argument
      signature the missing depth makes that call throw, for every start node. */
  lemma AsWrittenRootThrows(start: int)
    ensures ConstructAsWritten(Num(start), Undefined, Undefined) == Err(Plain("Missing node 'depth'"))
  {
  }

  /** The search extends a path with `new SearchNode(i, node)`: under the three-argument
      signature the parent lands in the depth field and the new node has no parent, so
      the parent chain that the path is rebuilt from is lost. */
  lemma AsWrittenChildLosesParent(v: int, parent: StoredNode)
    ensures ConstructAsWritten(Num(v), Ref(parent), Undefined) == Ok(StoredNode(Num(v), Ref(parent), None))
  {
  }

  /** The expectations of the constructor's tests hold of the two-argument constructor:
      a root has depth 0 and no parent, a child has depth 1 and keeps its parent, a missing
      id is refused, id 0 is accepted and a number in place of the parent is refused. */
  lemma ConstructMatchesTests()
    ensures Construct(Some(1), Undefined) == Ok(SearchNode(1, 0, None))
    ensures Construct(Some(5), Ref(SearchNode(1, 0, None))) ==
            Ok(SearchNode(5, 1, Some(SearchNode(1, 0, None))))
    ensures Construct(None, Undefined).Err?
    ensures Construct(Some(0), Undefined).Ok?
    ensures Construct(Some(0), Num(0)) == Err(Plain("Invalid 'prev' is not of type 'SearchNode'"))
  {
  }
}
