/**
  The imperative side of app/model/node.ts: the node collection, the
  in-memory documents read from it, the document methods `setParent`,
  `removeChild` and `calibrateHeightRoot`, and the exported `swapParent`.
  Each method is proved against the value-level definitions of the other
  modules.
 */
module NodeModel {
  import opened NodeRecords
  import opened ChildList
  import opened Calibration
  import opened Swap
  import opened Subtree

  /** The node collection: every stored record under its id. */
  class NodeStore {
    var nodes: map<Id, NodeRec>

    constructor (nodes: map<Id, NodeRec>)
      ensures this.nodes == nodes
    {
      this.nodes := nodes;
    }

    /** `Node.findById`: a fresh in-memory copy of the record, or null. */
    method FindById(id: Id) returns (doc: NodeDoc?)
      ensures doc == null <==> id !in nodes
      ensures doc != null ==> fresh(doc) && doc.id == id && doc.Rec() == nodes[id]
    {
      if id in nodes {
        doc := new NodeDoc.Load(id, nodes[id]);
      } else {
        doc := null;
      }
    }

    /** `save()`: the document's record replaces the stored one. */
    method Save(doc: NodeDoc)
      modifies this
      ensures nodes == old(nodes)[doc.id := doc.Rec()]
    {
      nodes := nodes[doc.id := doc.Rec()];
    }

    /**
      `recursiveSearch` inside `calibrateHeightRoot`: fetch the record,
      write the root (when given) and the height, walk every child one level
      deeper, then save the record.
     */
    method RecursiveSearch(nodeId: Id, height: int, root: Option<Id>, ghost rank: map<Id, nat>)
      requires Ranked(ShapeOf(nodes), rank)
      modifies this
      ensures nodes == Walk(old(nodes), nodeId, height, root, rank)
      decreases if nodeId in nodes then rank[nodeId] + 1 else 0, 0
    {
      var node := FindById(nodeId);
      if node == null {
        return;
      }
      if root.Some? {
        node.rootNode := root;
      }
      node.height := height;
      SearchChildren(node.children, height + 1, root, rank, rank[nodeId]);
      Save(node);
    }

    /**
      The `forEach` over a record's children in `recursiveSearch`: one
      `recursiveSearch` per child, in list order, all at the same height.
     */
    method SearchChildren(kids: seq<Id>, height: int, root: Option<Id>, ghost rank: map<Id, nat>, ghost bound: nat)
      requires Ranked(ShapeOf(nodes), rank)
      requires forall c :: c in kids && c in nodes ==> rank[c] < bound
      modifies this
      ensures nodes == WalkAll(old(nodes), kids, height, root, rank, bound)
      decreases bound, 1
    {
      ghost var start := nodes;
      var rest := kids;
      while rest != []
        invariant forall c :: c in rest ==> c in kids
        invariant ShapeOf(nodes) == ShapeOf(start)
        invariant WalkAll(nodes, rest, height, root, rank, bound) == WalkAll(start, kids, height, root, rank, bound)
        decreases |rest|
      {
        RecursiveSearch(rest[0], height, root, rank);
        rest := rest[1..];
      }
    }
  }

  /** An in-memory copy of one stored node (a Mongoose document). */
  class NodeDoc {
    const id: Id
    var description: string
    var height: int
    var rootNode: Option<Id>
    var parentNode: Option<Id>
    var children: seq<Id>

    /** The record this copy holds. */
    function Rec(): NodeRec
      reads this
    {
      NodeRec(description, height, rootNode, parentNode, children)
    }

    constructor Load(id: Id, rec: NodeRec)
      ensures this.id == id && Rec() == rec
    {
      this.id := id;
      description := rec.description;
      height := rec.height;
      rootNode := rec.rootNode;
      parentNode := rec.parentNode;
      children := rec.children;
    }

    /** `removeChild`: `findIndex` for the id, then `splice(index, 1)`. */
    method RemoveChild(child: Id)
      modifies this
      ensures Rec() == old(Rec()).(children := Removed(old(children), child))
    {
      var index := FindIndex(children, child);
      children := SpliceOne(children, index);
    }

    /**
      `setParent`: with a node given, fetch the old parent (when the pointer
      resolves) and remove this id from its copy, then point this at node
      and append this id to node's children. The old parent is returned,
      not saved. With null, nothing happens.
     */
    method SetParent(store: NodeStore, node: NodeDoc?) returns (oldParent: NodeDoc?)
      modifies this, node
      ensures node == null ==> oldParent == null && Rec() == old(Rec())
      ensures node != null ==>
        Rec() == old(Rec()).(parentNode := Some(node.id),
                             children := if node == this then old(children) + [id] else old(children))
      ensures node != null && node != this ==> node.Rec() == old(node.Rec()).(children := old(node.children) + [id])
      ensures oldParent != null <==>
        node != null && old(parentNode).Some? && old(parentNode).value in store.nodes
      ensures oldParent != null ==>
        && fresh(oldParent)
        && oldParent.id == old(parentNode).value
        && oldParent.Rec() == store.nodes[oldParent.id].(children := Removed(store.nodes[oldParent.id].children, id))
    {
      oldParent := null;
      if node != null {
        if parentNode.Some? {
          oldParent := store.FindById(parentNode.value);
          if oldParent != null {
            oldParent.RemoveChild(id);
          }
        }
        parentNode := Some(node.id);
        node.children := node.children + [id];
      }
    }

    /**
      `calibrateHeightRoot`: the walk from this node's id at this copy's
      height, writing the root on every visited record when one is given.
     */
    method CalibrateHeightRoot(store: NodeStore, root: Option<Id>, ghost rank: map<Id, nat>)
      requires Ranked(ShapeOf(store.nodes), rank)
      modifies store
      ensures store.nodes == Walk(old(store.nodes), id, height, root, rank)
    {
      store.RecursiveSearch(id, height, root, rank);
    }
  }

  /**
    The re-linking half of `swapParent`: `setParent`, the save of the old
    parent when there is one, main one level below parent, then the saves
    of main and parent.
   */
  method Reattach(store: NodeStore, main: NodeDoc, parent: NodeDoc) returns (oldParentNode: Option<Id>)
    requires main != parent && main.id != parent.id
    requires main.id in store.nodes && main.Rec() == store.nodes[main.id]
    requires parent.id in store.nodes && parent.Rec() == store.nodes[parent.id]
    modifies store, main, parent
    ensures oldParentNode == OldParentOf(old(store.nodes), main.id)
    ensures store.nodes == Relinked(old(store.nodes), main.id, parent.id)
    ensures main.height == old(store.nodes)[parent.id].height + 1
  {
    ghost var start := store.nodes;
    var oldParent := main.SetParent(store, parent);
    assert parent.Rec() == start[parent.id].(children := start[parent.id].children + [main.id]);
    oldParentNode := None;
    if oldParent != null {
      store.Save(oldParent);
      oldParentNode := Some(oldParent.id);
    }
    assert oldParentNode == OldParentOf(start, main.id);
    assert store.nodes == Detached(start, main.id);
    ghost var detached: map<Id, NodeRec> := store.nodes;
    main.height := parent.height + 1;
    ghost var mainRec, parentRec := main.Rec(), parent.Rec();
    assert mainRec == start[main.id].(parentNode := Some(parent.id), height := start[parent.id].height + 1);
    store.Save(main);
    store.Save(parent);
    assert store.nodes == detached[main.id := mainRec][parent.id := parentRec];
  }

  /**
    The closing step of `swapParent`: `calibrateHeightRoot` on main, now
    re-linked and one level below its new parent, without a root.
   */
  method Recalibrate(store: NodeStore, main: NodeDoc, ghost start: map<Id, NodeRec>, ghost parentId: Id, ghost rank: map<Id, nat>)
    requires MoveAllowed(start, main.id, parentId, rank) && main.id in start && parentId in start
    requires store.nodes == Relinked(start, main.id, parentId)
    requires main.height == start[parentId].height + 1
    modifies store
    ensures store.nodes == Moved(start, main.id, parentId, rank)
  {
    MovedIsWalk(start, main.id, parentId, rank);
    main.CalibrateHeightRoot(store, None, MovedRank(start, main.id, parentId, rank));
  }

  /**
    `swapParent`: look up both ids; when both resolve, re-link main under
    parent, save the old parent, main (one level below parent) and parent,
    then recalibrate main's subtree without a root.
   */
  method SwapParent(store: NodeStore, mainId: Id, parentId: Id, ghost rank: map<Id, nat>)
    returns (message: SwapResult)
    requires MoveAllowed(store.nodes, mainId, parentId, rank)
    modifies store
    ensures mainId !in old(store.nodes) || parentId !in old(store.nodes) ==>
      message == Failed && store.nodes == old(store.nodes)
    ensures mainId in old(store.nodes) && parentId in old(store.nodes) ==>
      && message == Succeeded(old(store.nodes), mainId, parentId)
      && store.nodes == Moved(old(store.nodes), mainId, parentId, rank)
  {
    ghost var start := store.nodes;
    message := Failed;
    var main := store.FindById(mainId);
    var parent := store.FindById(parentId);
    if main != null && parent != null {
      assert mainId != parentId by { assert parentId in Sub(ShapeOf(start), rank, parentId); }
      var oldParentNode := Reattach(store, main, parent);
      Recalibrate(store, main, start, parentId, rank);
      message := SwapResult("Swap successful", Some(main.id), Some(parent.id), oldParentNode);
    }
  }
}
