/**
  What `swapParent` of app/model/node.ts does to the store, as a value:
  the record writes of the re-linking (`setParent` and the three saves),
  followed by the re-heighting walk from the moved node, together with
  what the move keeps and what it changes.
 */
module Swap {
  import opened NodeRecords
  import opened ChildList
  import opened Subtree
  import opened Calibration

  /** The message object `swapParent` resolves with. */
  datatype SwapResult = SwapResult(
    description: string,
    mainNode: Option<Id>,
    parentNode: Option<Id>,
    oldParentNode: Option<Id>)

  /** The message when either id does not resolve. */
  const Failed: SwapResult := SwapResult("Failed to swap", None, None, None)

  /** The old parent `setParent` finds: the parent pointer, when it names a stored record. */
  function OldParentOf(nodes: map<Id, NodeRec>, m: Id): (o: Option<Id>)
    requires m in nodes
    ensures o.Some? <==> nodes[m].parentNode.Some? && nodes[m].parentNode.value in nodes
    ensures o.Some? ==> o == nodes[m].parentNode
  {
    match nodes[m].parentNode
    case Some(o) => if o in nodes then Some(o) else None
    case None => None
  }

  /** The message of a move between two stored records. */
  function Succeeded(nodes: map<Id, NodeRec>, m: Id, p: Id): (r: SwapResult)
    requires m in nodes
    ensures r.description != Failed.description
    ensures r.mainNode == Some(m) && r.parentNode == Some(p)
    ensures r.oldParentNode.Some? <==> nodes[m].parentNode.Some? && nodes[m].parentNode.value in nodes
    ensures r.description == "Swap successful"
    ensures r.oldParentNode == OldParentOf(nodes, m)
  {
    SwapResult("Swap successful", Some(m), Some(p), OldParentOf(nodes, m))
  }

  /** The store after the old parent, with m removed from its copy, is saved. */
  function Detached(nodes: map<Id, NodeRec>, m: Id): (r: map<Id, NodeRec>)
    requires m in nodes
    ensures r.Keys == nodes.Keys
    ensures forall x :: x in nodes && Some(x) != OldParentOf(nodes, m) ==> r[x] == nodes[x]
    ensures OldParentOf(nodes, m).Some? ==>
      var o := OldParentOf(nodes, m).value;
      r[o] == nodes[o].(children := Removed(nodes[o].children, m))
  {
    match OldParentOf(nodes, m)
    case Some(o) => nodes[o := nodes[o].(children := Removed(nodes[o].children, m))]
    case None => nodes
  }

  /**
    The store after the three record writes of a move: the old parent saved
    without m, then main saved with its new parent pointer and height, then
    the new parent saved with m appended to the child list it was loaded with.
   */
  function Relinked(nodes: map<Id, NodeRec>, m: Id, p: Id): (r: map<Id, NodeRec>)
    requires m in nodes && p in nodes
    ensures r.Keys == nodes.Keys
    ensures r[p] == nodes[p].(children := nodes[p].children + [m])
    ensures m != p ==> r[m] == nodes[m].(parentNode := Some(p), height := nodes[p].height + 1)
    ensures forall x :: x in nodes && x != m && x != p ==> r[x] == Detached(nodes, m)[x]
  {
    Detached(nodes, m)[m := nodes[m].(parentNode := Some(p), height := nodes[p].height + 1)]
                      [p := nodes[p].(children := nodes[p].children + [m])]
  }

  /**
    A move the walk can finish: the store is acyclic and the new parent is
    not inside the subtree being moved (which would close a cycle).
   */
  ghost predicate MoveAllowed(nodes: map<Id, NodeRec>, m: Id, p: Id, rank: map<Id, nat>)
  {
    && Ranked(ShapeOf(nodes), rank)
    && (m in nodes && p in nodes ==> p !in Sub(ShapeOf(nodes), rank, m))
  }

  /**
    A rank for the re-linked store: every node whose subtree held the new
    parent is lifted above the whole old subtree of m.
   */
  ghost function MovedRank(nodes: map<Id, NodeRec>, m: Id, p: Id, rank: map<Id, nat>): map<Id, nat>
    requires Ranked(ShapeOf(nodes), rank) && m in nodes
  {
    map x | x in rank :: rank[x] + (if p in Sub(ShapeOf(nodes), rank, x) then rank[m] + 1 else 0)
  }

  /** Re-linking changes no label, no root, and the parent and height of m alone. */
  lemma RelinkedFields(nodes: map<Id, NodeRec>, m: Id, p: Id, x: Id)
    requires m in nodes && p in nodes && x in nodes && m != p
    ensures var r := Relinked(nodes, m, p);
      && r[x].description == nodes[x].description
      && r[x].rootNode == nodes[x].rootNode
      && r[x].parentNode == (if x == m then Some(p) else nodes[x].parentNode)
      && r[x].height == (if x == m then nodes[p].height + 1 else nodes[x].height)
      && (x == p ==> r[x].children == nodes[p].children + [m])
      && (x == m ==> r[x].children == nodes[m].children)
      && (x != m && x != p && Some(x) == OldParentOf(nodes, m) ==> r[x].children == Removed(nodes[x].children, m))
      && (x != m && x != p && Some(x) != OldParentOf(nodes, m) ==> r[x].children == nodes[x].children)
  {
  }

  /** Every child list after re-linking is the old one, less or plus m. */
  lemma RelinkedChildSubset(nodes: map<Id, NodeRec>, m: Id, p: Id, x: Id, c: Id)
    requires m in nodes && p in nodes && x in nodes && m != p
    requires c in Relinked(nodes, m, p)[x].children
    ensures (x == p && c == m) || c in nodes[x].children
  {
    RelinkedFields(nodes, m, p, x);
    if x != p && x != m && Some(x) == OldParentOf(nodes, m) {
      RemovedSubset(nodes[x].children, m);
    }
  }

  /** The move keeps the store acyclic: the new rank witnesses the new child lists. */
  lemma RelinkedRanked(nodes: map<Id, NodeRec>, m: Id, p: Id, rank: map<Id, nat>)
    requires MoveAllowed(nodes, m, p, rank) && m in nodes && p in nodes
    ensures Ranked(ShapeOf(Relinked(nodes, m, p)), MovedRank(nodes, m, p, rank))
  {
    var g := ShapeOf(nodes);
    var r := Relinked(nodes, m, p);
    var g2 := ShapeOf(r);
    var rank2 := MovedRank(nodes, m, p, rank);
    assert m != p by { assert p in Sub(g, rank, p); }
    forall x, c | x in g2 && c in g2[x].children && c in g2
      ensures rank2[c] < rank2[x]
    {
      if x == p && c == m {
        assert p in Sub(g, rank, p);
      } else {
        RelinkedChildSubset(nodes, m, p, x, c);
        assert c in g[x].children;
        SubChild(g, rank, x, c);
      }
    }
  }

  /** The store `swapParent` leaves behind after a successful lookup of both ids. */
  ghost function Moved(nodes: map<Id, NodeRec>, m: Id, p: Id, rank: map<Id, nat>): (r: map<Id, NodeRec>)
    requires MoveAllowed(nodes, m, p, rank) && m in nodes && p in nodes
    ensures r.Keys == nodes.Keys
  {
    RelinkedRanked(nodes, m, p, rank);
    Walk(Relinked(nodes, m, p), m, nodes[p].height + 1, None, MovedRank(nodes, m, p, rank))
  }

  /** Moved, unfolded: the walk from m over the re-linked store, with the rank that makes it terminate. */
  lemma MovedIsWalk(nodes: map<Id, NodeRec>, m: Id, p: Id, rank: map<Id, nat>)
    requires MoveAllowed(nodes, m, p, rank) && m in nodes && p in nodes
    ensures Ranked(ShapeOf(Relinked(nodes, m, p)), MovedRank(nodes, m, p, rank))
    ensures Moved(nodes, m, p, rank)
         == Walk(Relinked(nodes, m, p), m, nodes[p].height + 1, None, MovedRank(nodes, m, p, rank))
  {
    RelinkedRanked(nodes, m, p, rank);
  }

  /**
    In a well-linked store, with m not already under p, the child lists
    after re-linking are exactly the old ones, with m moved from its old
    parent to the end of p's list.
   */
  lemma RelinkedChildren(nodes: map<Id, NodeRec>, m: Id, p: Id, rank: map<Id, nat>, x: Id, c: Id)
    requires MoveAllowed(nodes, m, p, rank) && WellLinked(ShapeOf(nodes))
    requires m in nodes && p in nodes && x in nodes && nodes[m].parentNode != Some(p)
    ensures c in Relinked(nodes, m, p)[x].children <==> (x == p && c == m) || (c != m && c in nodes[x].children)
  {
    var g := ShapeOf(nodes);
    assert m != p by { assert p in Sub(g, rank, p); }
    RelinkedFields(nodes, m, p, x);
    assert m in g[x].children ==> g[m].parent == Some(x) && x != m;
    if x != p && x != m && Some(x) == OldParentOf(nodes, m) {
      assert NoDup(g[x].children) && m in g[x].children;
      RemovedExactly(nodes[x].children, m);
    }
  }

  /** Appending an id that is not yet listed keeps a list duplicate-free. */
  lemma AppendNoDup(s: seq<Id>, x: Id)
    requires NoDup(s) && x !in s
    ensures NoDup(s + [x])
  {
    var t := s + [x];
    forall i, j | 0 <= i < j < |t| ensures t[i] != t[j] {
      if j == |s| { assert t[i] == s[i]; }
    }
  }

  /** Re-linking a well-linked store under a different parent keeps it well linked. */
  lemma RelinkedWellLinked(nodes: map<Id, NodeRec>, m: Id, p: Id, rank: map<Id, nat>)
    requires MoveAllowed(nodes, m, p, rank) && WellLinked(ShapeOf(nodes))
    requires m in nodes && p in nodes && nodes[m].parentNode != Some(p)
    ensures WellLinked(ShapeOf(Relinked(nodes, m, p)))
  {
    var g := ShapeOf(nodes);
    var r := Relinked(nodes, m, p);
    var g2 := ShapeOf(r);
    assert m != p by { assert p in Sub(g, rank, p); }
    forall x, c | x in g2 && c in g2[x].children && c in g2
      ensures g2[c].parent == Some(x)
    {
      RelinkedChildren(nodes, m, p, rank, x, c);
      RelinkedFields(nodes, m, p, c);
      if c != m {
        assert c in g[x].children;
      }
    }
    forall c | c in g2 && g2[c].parent.Some?
      ensures g2[c].parent.value in g2 && c in g2[g2[c].parent.value].children
    {
      RelinkedFields(nodes, m, p, c);
      var q := g2[c].parent.value;
      if c != m {
        assert g[c].parent == Some(q);
      }
      RelinkedChildren(nodes, m, p, rank, q, c);
    }
    forall x | x in g2 ensures NoDup(g2[x].children) {
      RelinkedFields(nodes, m, p, x);
      assert NoDup(g[x].children);
      if x == p {
        assert g[m].parent != Some(p);
        assert m !in g[p].children;
        AppendNoDup(nodes[p].children, m);
      } else if x != m && Some(x) == OldParentOf(nodes, m) {
        RemovedSubset(nodes[x].children, m);
      }
    }
  }

  /**
    In a well-linked store every listed child still points back at the
    node listing it after re-linking, whichever parent m moves under.
   */
  lemma RelinkedChildLinked(nodes: map<Id, NodeRec>, m: Id, p: Id, rank: map<Id, nat>)
    requires MoveAllowed(nodes, m, p, rank) && WellLinked(ShapeOf(nodes)) && m in nodes && p in nodes
    ensures ChildLinked(ShapeOf(Relinked(nodes, m, p)))
  {
    var g := ShapeOf(nodes);
    var g2 := ShapeOf(Relinked(nodes, m, p));
    assert m != p by { assert p in Sub(g, rank, p); }
    forall x, c | x in g2 && c in g2[x].children && c in g2
      ensures g2[c].parent == Some(x)
    {
      RelinkedFields(nodes, m, p, x);
      RelinkedFields(nodes, m, p, c);
      if !(x == p && c == m) {
        RelinkedChildSubset(nodes, m, p, x, c);
        assert g[c].parent == Some(x);
        if c == m && x != p && x != m {
          RemovedExactly(nodes[x].children, m);
        }
      }
    }
  }

  /**
    The new parent ends up outside the re-heighted subtree, and m keeps its
    rank under the new ranking.
   */
  lemma ParentOutsideMoved(nodes: map<Id, NodeRec>, m: Id, p: Id, rank: map<Id, nat>)
    requires MoveAllowed(nodes, m, p, rank) && m in nodes && p in nodes
    ensures var rl, rank2 := Relinked(nodes, m, p), MovedRank(nodes, m, p, rank);
      && Ranked(ShapeOf(rl), rank2)
      && p !in Sub(ShapeOf(rl), rank2, m)
      && rank2[m] == rank[m]
  {
    var g := ShapeOf(nodes);
    var rank2 := MovedRank(nodes, m, p, rank);
    RelinkedRanked(nodes, m, p, rank);
    assert p in Sub(g, rank, p);
    assert rank2[m] == rank[m];
    assert rank2[p] > rank2[m];
  }

  /**
    What the walk of a move writes at one record: the height alone, and only
    inside the re-linked subtree of m.
   */
  lemma MovedAt(nodes: map<Id, NodeRec>, m: Id, p: Id, rank: map<Id, nat>, x: Id)
    requires MoveAllowed(nodes, m, p, rank) && m in nodes && p in nodes && x in nodes
    ensures var rl, rank2 := Relinked(nodes, m, p), MovedRank(nodes, m, p, rank);
      var r := Moved(nodes, m, p, rank);
      && Ranked(ShapeOf(rl), rank2)
      && r[x] == rl[x].(height := r[x].height)
      && (x !in Sub(ShapeOf(rl), rank2, m) ==> r[x] == rl[x])
  {
    RelinkedRanked(nodes, m, p, rank);
    var rl := Relinked(nodes, m, p);
    var rank2 := MovedRank(nodes, m, p, rank);
    var h := nodes[p].height + 1;
    if x in Sub(ShapeOf(rl), rank2, m) {
      WalkInside(rl, m, h, None, rank2, x);
    } else {
      WalkOutside(rl, m, h, None, rank2, x);
    }
  }

  /** The new parent's record after a move: only m appended to its children. */
  lemma MovedNewParent(nodes: map<Id, NodeRec>, m: Id, p: Id, rank: map<Id, nat>)
    requires MoveAllowed(nodes, m, p, rank) && m in nodes && p in nodes
    ensures Moved(nodes, m, p, rank)[p] == nodes[p].(children := nodes[p].children + [m])
  {
    assert m != p by { assert p in Sub(ShapeOf(nodes), rank, p); }
    MovedAt(nodes, m, p, rank, p);
    RelinkedFields(nodes, m, p, p);
    ParentOutsideMoved(nodes, m, p, rank);
  }

  /**
    A successful move, on any acyclic store: m hangs under p one level
    below it, p gains m at the end of its list and nothing else, the old
    parent loses m, no label or root changes, and only m's parent pointer
    changes.
   */
  lemma MoveOutcome(nodes: map<Id, NodeRec>, m: Id, p: Id, rank: map<Id, nat>)
    requires MoveAllowed(nodes, m, p, rank) && m in nodes && p in nodes
    ensures var r := Moved(nodes, m, p, rank);
      && r.Keys == nodes.Keys
      && r[m].parentNode == Some(p)
      && r[m].height == nodes[p].height + 1
      && r[m].children == nodes[m].children
      && r[p] == nodes[p].(children := nodes[p].children + [m])
      && (forall x :: x in nodes ==> r[x].description == nodes[x].description && r[x].rootNode == nodes[x].rootNode)
      && (forall x :: x in nodes && x != m ==> r[x].parentNode == nodes[x].parentNode)
      && (var o := OldParentOf(nodes, m);
          o.Some? && o.value != p && o.value != m ==> r[o.value].children == Removed(nodes[o.value].children, m))
      && (forall x :: x in nodes && x != m && x != p && Some(x) != OldParentOf(nodes, m) ==>
            r[x].children == nodes[x].children)
  {
    var r := Moved(nodes, m, p, rank);
    assert m != p by { assert p in Sub(ShapeOf(nodes), rank, p); }
    forall x | x in nodes
      ensures r[x].description == nodes[x].description && r[x].rootNode == nodes[x].rootNode
      ensures x != m ==> r[x].parentNode == nodes[x].parentNode
      ensures x != m && x != p && Some(x) != OldParentOf(nodes, m) ==> r[x].children == nodes[x].children
      ensures x != m && x != p && Some(x) == OldParentOf(nodes, m) ==> r[x].children == Removed(nodes[x].children, m)
    {
      MovedAt(nodes, m, p, rank, x);
      RelinkedFields(nodes, m, p, x);
    }
    MovedAt(nodes, m, p, rank, m);
    RelinkedFields(nodes, m, p, m);
    MovedAt(nodes, m, p, rank, p);
    RelinkedFields(nodes, m, p, p);
    ParentOutsideMoved(nodes, m, p, rank);
  }

  /**
    Moving m under the parent it already has lists m twice when the two
    copies of that record are saved whole, in call order: the old parent's
    copy loses m, but the new parent's copy, saved after it, was loaded
    with m still listed and appends it again.
   */
  lemma MoveUnderSameParent(nodes: map<Id, NodeRec>, m: Id, p: Id, rank: map<Id, nat>)
    requires MoveAllowed(nodes, m, p, rank) && WellLinked(ShapeOf(nodes))
    requires m in nodes && p in nodes && nodes[m].parentNode == Some(p)
    ensures !NoDup(Moved(nodes, m, p, rank)[p].children)
  {
    var g := ShapeOf(nodes);
    MovedNewParent(nodes, m, p, rank);
    assert m in g[p].children;
    var s := nodes[p].children;
    var i :| 0 <= i < |s| && s[i] == m;
    var t := s + [m];
    assert t[i] == t[|s|];
  }

  /**
    In a well-linked store the subtree the walk re-heights is the old
    subtree of m, and depths in it are the old depths, also when m moves
    under the parent it already has.
   */
  lemma MovedSubtree(nodes: map<Id, NodeRec>, m: Id, p: Id, rank: map<Id, nat>)
    requires MoveAllowed(nodes, m, p, rank) && WellLinked(ShapeOf(nodes))
    requires m in nodes && p in nodes
    ensures var g, rank2 := ShapeOf(nodes), MovedRank(nodes, m, p, rank);
      var g2 := ShapeOf(Relinked(nodes, m, p));
      && Ranked(g2, rank2) && ChildLinked(g2)
      && Sub(g2, rank2, m) == Sub(g, rank, m)
      && forall y :: y in Sub(g, rank, m) ==> Depth(g2, rank2, m, y) == Depth(g, rank, m, y)
  {
    var g, rank2 := ShapeOf(nodes), MovedRank(nodes, m, p, rank);
    var g2 := ShapeOf(Relinked(nodes, m, p));
    RelinkedRanked(nodes, m, p, rank);
    RelinkedChildLinked(nodes, m, p, rank);
    assert m != p by { assert p in Sub(g, rank, p); }
    if OldParentOf(nodes, m).Some? {
      var o := OldParentOf(nodes, m).value;
      assert m in g[o].children;
      assert o !in Sub(g, rank, m);
    }
    forall y | y in Sub(g, rank, m)
      ensures g2[y].children == g[y].children
      ensures y != m ==> g2[y].parent == g[y].parent
    {
      RelinkedFields(nodes, m, p, y);
    }
    SubSame(g, rank, g2, rank2, m);
    forall y | y in Sub(g, rank, m) ensures Depth(g2, rank2, m, y) == Depth(g, rank, m, y) {
      DepthSame(g, rank, g2, rank2, m, y);
    }
  }

  /** MoveReheights at one record. */
  lemma MoveReheightsAt(nodes: map<Id, NodeRec>, m: Id, p: Id, rank: map<Id, nat>, y: Id)
    requires MoveAllowed(nodes, m, p, rank) && WellLinked(ShapeOf(nodes))
    requires m in nodes && p in nodes && y in nodes
    ensures var r, g := Moved(nodes, m, p, rank), ShapeOf(nodes);
      && (y in Sub(g, rank, m) ==> r[y].height == nodes[p].height + 1 + Depth(g, rank, m, y))
      && (y !in Sub(g, rank, m) ==> r[y].height == nodes[y].height)
  {
    if y in Sub(ShapeOf(nodes), rank, m) {
      MovedInsideHeight(nodes, m, p, rank, y);
    } else {
      MovedOutsideHeight(nodes, m, p, rank, y);
    }
  }

  /** A node of the moved subtree ends at its depth below `height(p) + 1`. */
  lemma MovedInsideHeight(nodes: map<Id, NodeRec>, m: Id, p: Id, rank: map<Id, nat>, y: Id)
    requires MoveAllowed(nodes, m, p, rank) && WellLinked(ShapeOf(nodes))
    requires m in nodes && p in nodes
    requires y in Sub(ShapeOf(nodes), rank, m)
    ensures Moved(nodes, m, p, rank)[y].height == nodes[p].height + 1 + Depth(ShapeOf(nodes), rank, m, y)
  {
    MovedSubtree(nodes, m, p, rank);
    WalkDepth(Relinked(nodes, m, p), m, nodes[p].height + 1, None, MovedRank(nodes, m, p, rank), y);
  }

  /** A node outside the moved subtree keeps its height. */
  lemma MovedOutsideHeight(nodes: map<Id, NodeRec>, m: Id, p: Id, rank: map<Id, nat>, y: Id)
    requires MoveAllowed(nodes, m, p, rank) && WellLinked(ShapeOf(nodes))
    requires m in nodes && p in nodes
    requires y in nodes && y !in Sub(ShapeOf(nodes), rank, m)
    ensures Moved(nodes, m, p, rank)[y].height == nodes[y].height
  {
    MovedSubtree(nodes, m, p, rank);
    MovedAt(nodes, m, p, rank, y);
    RelinkedFields(nodes, m, p, y);
  }

  /**
    Every node of the moved subtree at depth d below m gets the height
    `height(p) + 1 + d`; every other node keeps its height.
   */
  lemma MoveReheights(nodes: map<Id, NodeRec>, m: Id, p: Id, rank: map<Id, nat>)
    requires MoveAllowed(nodes, m, p, rank) && WellLinked(ShapeOf(nodes))
    requires m in nodes && p in nodes
    ensures var r, g := Moved(nodes, m, p, rank), ShapeOf(nodes);
      && (forall y :: y in Sub(g, rank, m) ==> r[y].height == nodes[p].height + 1 + Depth(g, rank, m, y))
      && (forall y :: y in nodes && y !in Sub(g, rank, m) ==> r[y].height == nodes[y].height)
  {
    forall y | y in nodes {
      MoveReheightsAt(nodes, m, p, rank, y);
    }
  }

  /**
    A move keeps a consistent forest consistent: links agree both ways,
    the store stays acyclic, every child sits one level below its parent,
    and roots stay consistent when m moves within its own tree.
   */
  lemma MovePreservesForest(nodes: map<Id, NodeRec>, m: Id, p: Id, rank: map<Id, nat>)
    requires MoveAllowed(nodes, m, p, rank) && WellLinked(ShapeOf(nodes)) && HeightsOk(nodes)
    requires m in nodes && p in nodes && nodes[m].parentNode != Some(p)
    ensures var r := Moved(nodes, m, p, rank);
      && WellLinked(ShapeOf(r))
      && Ranked(ShapeOf(r), MovedRank(nodes, m, p, rank))
      && HeightsOk(r)
      && (RootsOk(nodes) && nodes[m].rootNode == nodes[p].rootNode ==> RootsOk(r))
  {
    var r := Moved(nodes, m, p, rank);
    RelinkedRanked(nodes, m, p, rank);
    RelinkedWellLinked(nodes, m, p, rank);
    assert ShapeOf(r) == ShapeOf(Relinked(nodes, m, p));
    MovedHeightsOk(nodes, m, p, rank);
    MovedRootsOk(nodes, m, p, rank);
  }

  /** After a move every child again sits one level below its parent. */
  lemma MovedHeightsOk(nodes: map<Id, NodeRec>, m: Id, p: Id, rank: map<Id, nat>)
    requires MoveAllowed(nodes, m, p, rank) && WellLinked(ShapeOf(nodes)) && HeightsOk(nodes)
    requires m in nodes && p in nodes && nodes[m].parentNode != Some(p)
    ensures HeightsOk(Moved(nodes, m, p, rank))
  {
    var r := Moved(nodes, m, p, rank);
    var rl, rank2 := Relinked(nodes, m, p), MovedRank(nodes, m, p, rank);
    var g2 := ShapeOf(rl);
    RelinkedRanked(nodes, m, p, rank);
    RelinkedWellLinked(nodes, m, p, rank);
    assert ShapeOf(r) == g2;
    assert m != p by { assert p in Sub(ShapeOf(nodes), rank, p); }
    var s := Sub(g2, rank2, m);
    ParentOutsideMoved(nodes, m, p, rank);
    WalkParentHeights(rl, m, nodes[p].height + 1, None, rank2);
    SubClosed(g2, rank2, m);
    forall y, q | y in r && r[y].parentNode == Some(q) && q in r
      ensures r[y].height == r[q].height + 1
    {
      if y == m {
        MovedAt(nodes, m, p, rank, p);
      } else if y !in s {
        MovedAt(nodes, m, p, rank, y);
        RelinkedFields(nodes, m, p, y);
        assert g2[y].parent == Some(q);
        MovedAt(nodes, m, p, rank, q);
        RelinkedFields(nodes, m, p, q);
      }
    }
  }

  /** A move within one tree keeps every node on its parent's root. */
  lemma MovedRootsOk(nodes: map<Id, NodeRec>, m: Id, p: Id, rank: map<Id, nat>)
    requires MoveAllowed(nodes, m, p, rank) && m in nodes && p in nodes
    ensures RootsOk(nodes) && nodes[m].rootNode == nodes[p].rootNode ==> RootsOk(Moved(nodes, m, p, rank))
  {
    var r := Moved(nodes, m, p, rank);
    assert m != p by { assert p in Sub(ShapeOf(nodes), rank, p); }
    if RootsOk(nodes) && nodes[m].rootNode == nodes[p].rootNode {
      forall y, q | y in r && r[y].parentNode == Some(q) && q in r
        ensures r[y].rootNode == r[q].rootNode
      {
        MovedAt(nodes, m, p, rank, y);
        RelinkedFields(nodes, m, p, y);
        MovedAt(nodes, m, p, rank, q);
        RelinkedFields(nodes, m, p, q);
      }
    }
  }
}
