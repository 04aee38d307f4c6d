/**
  The stored node record of app/model/node.ts (the `INode` interface and
  `NodeSchema`), and the structural predicates the rest of the model states
  its properties with.
 */
module NodeRecords {

  datatype Option<+T> = None | Some(value: T)

  /** A node's database id (a Mongo ObjectId in the source). */
  type Id = nat

  /** One stored node; its id is the key it is stored under. */
  datatype NodeRec = NodeRec(
    description: string,
    height: int,
    rootNode: Option<Id>,
    parentNode: Option<Id>,
    children: seq<Id>)

  /**
    What one visit of the height/root walk writes into a record: the new
    height always, the new root only when a root was passed.
   */
  function Stamp(rec: NodeRec, height: int, root: Option<Id>): (r: NodeRec)
    ensures r.height == height
    ensures r.rootNode == (if root.Some? then root else rec.rootNode)
    ensures r.description == rec.description && r.parentNode == rec.parentNode && r.children == rec.children
  {
    rec.(height := height, rootNode := if root.Some? then root else rec.rootNode)
  }

  /** The links of one node: its parent pointer and its child list. */
  datatype Link = Link(parent: Option<Id>, children: seq<Id>)

  /** The link structure of a whole store, without heights, roots or labels. */
  type Shape = map<Id, Link>

  function ShapeOf(nodes: map<Id, NodeRec>): (g: Shape)
    ensures g.Keys == nodes.Keys
    ensures forall x :: x in nodes ==> g[x] == Link(nodes[x].parentNode, nodes[x].children)
  {
    map x | x in nodes :: Link(nodes[x].parentNode, nodes[x].children)
  }

  predicate NoDup(s: seq<Id>)
  {
    forall i, j :: 0 <= i < j < |s| ==> s[i] != s[j]
  }

  /**
    Acyclicity of the child lists, witnessed by a rank: every stored child
    ranks strictly below the node that lists it.
   */
  ghost predicate Ranked(g: Shape, rank: map<Id, nat>)
  {
    && g.Keys <= rank.Keys
    && forall x, c :: x in g && c in g[x].children && c in g ==> rank[c] < rank[x]
  }

  /** Every stored child points back at the node that lists it. */
  ghost predicate ChildLinked(g: Shape)
  {
    forall x, c :: x in g && c in g[x].children && c in g ==> g[c].parent == Some(x)
  }

  /** Every parent pointer names a stored node that lists the child. */
  ghost predicate ParentLinked(g: Shape)
  {
    forall c :: c in g && g[c].parent.Some? ==>
      g[c].parent.value in g && c in g[g[c].parent.value].children
  }

  ghost predicate NoDupChildren(g: Shape)
  {
    forall x :: x in g ==> NoDup(g[x].children)
  }

  /** Parent and child links agree both ways and child lists are sets. */
  ghost predicate WellLinked(g: Shape)
  {
    ChildLinked(g) && ParentLinked(g) && NoDupChildren(g)
  }

  /** Every node with a stored parent sits one level below it. */
  ghost predicate HeightsOk(nodes: map<Id, NodeRec>)
  {
    forall y, q :: y in nodes && nodes[y].parentNode == Some(q) && q in nodes ==>
      nodes[y].height == nodes[q].height + 1
  }

  /** Every node with a stored parent has its parent's root. */
  ghost predicate RootsOk(nodes: map<Id, NodeRec>)
  {
    forall y, q :: y in nodes && nodes[y].parentNode == Some(q) && q in nodes ==>
      nodes[y].rootNode == nodes[q].rootNode
  }
}
