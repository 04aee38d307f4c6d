/**
  What `calibrateHeightRoot` of app/model/node.ts does to the store, as a
  sequential depth-first walk: `recursiveSearch` fetches a record, writes
  the height (and the root, when one was passed), walks every child one
  level deeper, then saves the record.
 */
module Calibration {
  import opened NodeRecords
  import opened Subtree

  /** The store after `recursiveSearch(id, height, root)`. */
  ghost function Walk(nodes: map<Id, NodeRec>, id: Id, height: int, root: Option<Id>, rank: map<Id, nat>)
    : (r: map<Id, NodeRec>)
    requires Ranked(ShapeOf(nodes), rank)
    ensures r.Keys == nodes.Keys
    ensures ShapeOf(r) == ShapeOf(nodes)
    ensures id in nodes ==> r[id] == Stamp(nodes[id], height, root)
    decreases if id in nodes then rank[id] + 1 else 0, 0
  {
    if id !in nodes then nodes
    else
      var after := WalkAll(nodes, nodes[id].children, height + 1, root, rank, rank[id]);
      var r := after[id := Stamp(nodes[id], height, root)];
      assert ShapeOf(r) == ShapeOf(after);
      r
  }

  /** The store after walking each of ids in turn, all at the same height. */
  ghost function WalkAll(nodes: map<Id, NodeRec>, ids: seq<Id>, height: int, root: Option<Id>,
                         rank: map<Id, nat>, bound: nat): (r: map<Id, NodeRec>)
    requires Ranked(ShapeOf(nodes), rank)
    requires forall c :: c in ids && c in nodes ==> rank[c] < bound
    ensures r.Keys == nodes.Keys
    ensures ShapeOf(r) == ShapeOf(nodes)
    decreases bound, |ids|
  {
    if ids == [] then nodes
    else WalkAll(Walk(nodes, ids[0], height, root, rank), ids[1..], height, root, rank, bound)
  }

  /** A node outside the subtree is left as it was. */
  lemma {:induction false} WalkOutside(nodes: map<Id, NodeRec>, id: Id, height: int, root: Option<Id>,
                                       rank: map<Id, nat>, y: Id)
    requires Ranked(ShapeOf(nodes), rank)
    requires y in nodes && y !in Sub(ShapeOf(nodes), rank, id)
    ensures Walk(nodes, id, height, root, rank)[y] == nodes[y]
    decreases if id in nodes then rank[id] + 1 else 0, 0
  {
    if id in nodes {
      WalkAllOutside(nodes, nodes[id].children, height + 1, root, rank, rank[id], y);
    }
  }

  lemma {:induction false} WalkAllOutside(nodes: map<Id, NodeRec>, ids: seq<Id>, height: int, root: Option<Id>,
                                          rank: map<Id, nat>, bound: nat, y: Id)
    requires Ranked(ShapeOf(nodes), rank)
    requires forall c :: c in ids && c in nodes ==> rank[c] < bound
    requires y in nodes && y !in SubAll(ShapeOf(nodes), rank, ids, bound)
    ensures WalkAll(nodes, ids, height, root, rank, bound)[y] == nodes[y]
    decreases bound, |ids|
  {
    if ids != [] {
      var after := Walk(nodes, ids[0], height, root, rank);
      WalkOutside(nodes, ids[0], height, root, rank, y);
      WalkAllOutside(after, ids[1..], height, root, rank, bound, y);
    }
  }

  /**
    A node inside the subtree keeps its links and label: only its height
    and, when a root was passed, its root change.
   */
  lemma {:induction false} WalkInside(nodes: map<Id, NodeRec>, id: Id, height: int, root: Option<Id>,
                                      rank: map<Id, nat>, y: Id)
    requires Ranked(ShapeOf(nodes), rank)
    requires y in Sub(ShapeOf(nodes), rank, id)
    ensures var r := Walk(nodes, id, height, root, rank); r[y] == Stamp(nodes[y], r[y].height, root)
    decreases if id in nodes then rank[id] + 1 else 0, 0
  {
    if y != id {
      WalkAllInside(nodes, nodes[id].children, height + 1, root, rank, rank[id], y);
    }
  }

  lemma {:induction false} WalkAllInside(nodes: map<Id, NodeRec>, ids: seq<Id>, height: int, root: Option<Id>,
                                         rank: map<Id, nat>, bound: nat, y: Id)
    requires Ranked(ShapeOf(nodes), rank)
    requires forall c :: c in ids && c in nodes ==> rank[c] < bound
    requires y in SubAll(ShapeOf(nodes), rank, ids, bound)
    ensures var r := WalkAll(nodes, ids, height, root, rank, bound); r[y] == Stamp(nodes[y], r[y].height, root)
    decreases bound, |ids|
  {
    var g := ShapeOf(nodes);
    var after := Walk(nodes, ids[0], height, root, rank);
    if y in Sub(g, rank, ids[0]) {
      WalkInside(nodes, ids[0], height, root, rank, y);
    } else {
      WalkOutside(nodes, ids[0], height, root, rank, y);
    }
    if y in SubAll(g, rank, ids[1..], bound) {
      WalkAllInside(after, ids[1..], height, root, rank, bound, y);
    } else {
      WalkAllOutside(after, ids[1..], height, root, rank, bound, y);
    }
  }

  /**
    The walk touches nothing outside the subtree and, inside it, only the
    height and (when a root is passed) the root.
   */
  lemma WalkFrame(nodes: map<Id, NodeRec>, id: Id, height: int, root: Option<Id>, rank: map<Id, nat>)
    requires Ranked(ShapeOf(nodes), rank)
    ensures var r := Walk(nodes, id, height, root, rank);
      && (forall y :: y in nodes && y !in Sub(ShapeOf(nodes), rank, id) ==> r[y] == nodes[y])
      && (forall y :: y in Sub(ShapeOf(nodes), rank, id) ==> r[y] == Stamp(nodes[y], r[y].height, root))
  {
    forall y | y in nodes && y !in Sub(ShapeOf(nodes), rank, id) {
      WalkOutside(nodes, id, height, root, rank, y);
    }
    forall y | y in Sub(ShapeOf(nodes), rank, id) {
      WalkInside(nodes, id, height, root, rank, y);
    }
  }

  /**
    When every child points back at its parent, the walk from id gives the
    node at depth d below id the height `height + d` (WalkInside says what
    else it writes).
   */
  lemma {:induction false} WalkDepth(nodes: map<Id, NodeRec>, id: Id, height: int, root: Option<Id>,
                                     rank: map<Id, nat>, y: Id)
    requires Ranked(ShapeOf(nodes), rank) && ChildLinked(ShapeOf(nodes))
    requires y in Sub(ShapeOf(nodes), rank, id)
    ensures Walk(nodes, id, height, root, rank)[y].height == height + Depth(ShapeOf(nodes), rank, id, y)
    decreases if id in nodes then rank[id] + 1 else 0, 0, 0
  {
    var g := ShapeOf(nodes);
    if y == id {
      assert Depth(g, rank, id, y) == 0;
    } else {
      WalkAllDepth(nodes, id, nodes[id].children, height, root, rank, y);
    }
  }

  /** The children walk of WalkDepth: ids are children of x, walked one level below height. */
  lemma {:induction false} WalkAllDepth(nodes: map<Id, NodeRec>, x: Id, ids: seq<Id>, height: int,
                                        root: Option<Id>, rank: map<Id, nat>, y: Id)
    requires Ranked(ShapeOf(nodes), rank) && ChildLinked(ShapeOf(nodes))
    requires x in nodes
    requires forall c :: c in ids && c in nodes ==> c in ShapeOf(nodes)[x].children
    requires y in SubAll(ShapeOf(nodes), rank, ids, rank[x])
    ensures y in Sub(ShapeOf(nodes), rank, x)
    ensures WalkAll(nodes, ids, height + 1, root, rank, rank[x])[y].height
         == height + Depth(ShapeOf(nodes), rank, x, y)
    decreases rank[x], |ids|, 1
  {
    var g := ShapeOf(nodes);
    if y in SubAll(g, rank, ids[1..], rank[x]) {
      var after := Walk(nodes, ids[0], height + 1, root, rank);
      assert ShapeOf(after) == g;
      WalkAllDepth(after, x, ids[1..], height, root, rank, y);
    } else {
      WalkAllDepthHead(nodes, x, ids, height, root, rank, y);
    }
  }

  /** WalkAllDepth when y lies below the first of ids. */
  lemma {:induction false} WalkAllDepthHead(nodes: map<Id, NodeRec>, x: Id, ids: seq<Id>, height: int,
                                            root: Option<Id>, rank: map<Id, nat>, y: Id)
    requires Ranked(ShapeOf(nodes), rank) && ChildLinked(ShapeOf(nodes))
    requires x in nodes && ids != []
    requires forall c :: c in ids && c in nodes ==> c in ShapeOf(nodes)[x].children
    requires y in Sub(ShapeOf(nodes), rank, ids[0]) && y !in SubAll(ShapeOf(nodes), rank, ids[1..], rank[x])
    ensures y in Sub(ShapeOf(nodes), rank, x)
    ensures WalkAll(nodes, ids, height + 1, root, rank, rank[x])[y].height
         == height + Depth(ShapeOf(nodes), rank, x, y)
    decreases rank[x], |ids|, 0
  {
    var g := ShapeOf(nodes);
    var c := ids[0];
    var after := Walk(nodes, c, height + 1, root, rank);
    WalkDepth(nodes, c, height + 1, root, rank, y);
    DepthStep(g, rank, x, c, y);
    WalkAllOutside(after, ids[1..], height + 1, root, rank, rank[x], y);
  }

  /**
    After the walk every proper descendant of id sits exactly one level
    below its parent, and id itself has the given height.
   */
  lemma WalkParentHeights(nodes: map<Id, NodeRec>, id: Id, height: int, root: Option<Id>,
                          rank: map<Id, nat>)
    requires Ranked(ShapeOf(nodes), rank) && ChildLinked(ShapeOf(nodes))
    ensures var r := Walk(nodes, id, height, root, rank); var g := ShapeOf(nodes);
      && (id in nodes ==> r[id].height == height)
      && forall y :: y in Sub(g, rank, id) && y != id ==>
           && r[y].parentNode.Some?
           && r[y].parentNode.value in Sub(g, rank, id)
           && r[y].height == r[r[y].parentNode.value].height + 1
  {
    var g := ShapeOf(nodes);
    var r := Walk(nodes, id, height, root, rank);
    forall y | y in Sub(g, rank, id) && y != id
      ensures r[y].parentNode.Some? && r[y].parentNode.value in Sub(g, rank, id)
      ensures r[y].height == r[r[y].parentNode.value].height + 1
    {
      SubParent(g, rank, id, y);
      WalkDepth(nodes, id, height, root, rank, y);
      WalkDepth(nodes, id, height, root, rank, g[y].parent.value);
    }
  }

  /** WalkIdempotent at one record. */
  lemma WalkIdempotentAt(nodes: map<Id, NodeRec>, id: Id, height: int, root: Option<Id>, rank: map<Id, nat>, y: Id)
    requires Ranked(ShapeOf(nodes), rank) && ChildLinked(ShapeOf(nodes)) && y in nodes
    ensures var r := Walk(nodes, id, height, root, rank);
      Walk(r, id, height, root, rank)[y] == r[y]
  {
    var r := Walk(nodes, id, height, root, rank);
    if y in Sub(ShapeOf(nodes), rank, id) {
      WalkInside(nodes, id, height, root, rank, y);
      WalkDepth(nodes, id, height, root, rank, y);
      WalkInside(r, id, height, root, rank, y);
      WalkDepth(r, id, height, root, rank, y);
    } else {
      WalkOutside(r, id, height, root, rank, y);
    }
  }

  /**
    Calibrating twice from the same node with the same height and root is
    the same as calibrating once.
   */
  lemma WalkIdempotent(nodes: map<Id, NodeRec>, id: Id, height: int, root: Option<Id>, rank: map<Id, nat>)
    requires Ranked(ShapeOf(nodes), rank) && ChildLinked(ShapeOf(nodes))
    ensures var r := Walk(nodes, id, height, root, rank);
      Walk(r, id, height, root, rank) == r
  {
    var r := Walk(nodes, id, height, root, rank);
    forall y | y in nodes ensures Walk(r, id, height, root, rank)[y] == r[y] {
      WalkIdempotentAt(nodes, id, height, root, rank, y);
    }
  }
}
