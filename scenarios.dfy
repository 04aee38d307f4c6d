/**
  Concrete stores run through the model: the grandchild move exercised by
  app/test/node.test.ts and the four-node chain that `populateDatabase` in
  app/app.ts calibrates from its root.
 */
module Scenarios {
  import opened NodeRecords
  import opened ChildList
  import opened Subtree
  import opened Calibration
  import opened Swap

  /** Root 0, its child 1, and 1's child 2, heights 0/1/2, all rooted at 0. */
  function ThreeLevels(): map<Id, NodeRec>
  {
    map[
      0 := NodeRec("Root Node", 0, Some(0), None, [1]),
      1 := NodeRec("Child Node", 1, Some(0), Some(0), [2]),
      2 := NodeRec("Lower Child Node", 2, Some(0), Some(1), [])]
  }

  /** Ranks that witness its acyclicity: each node above its child. */
  function ThreeRank(): map<Id, nat>
  {
    map[0 := 2, 1 := 1, 2 := 0]
  }

  /** Its link structure, written out. */
  lemma ThreeLevelsShape()
    ensures ShapeOf(ThreeLevels()) == map[0 := Link(None, [1]), 1 := Link(Some(0), [2]), 2 := Link(Some(1), [])]
  {
    var nodes := ThreeLevels();
    assert nodes.Keys == {0, 1, 2};
  }

  lemma ThreeLevelsRanked()
    ensures Ranked(ShapeOf(ThreeLevels()), ThreeRank())
    ensures Sub(ShapeOf(ThreeLevels()), ThreeRank(), 2) == {2}
  {
    var rank, g := ThreeRank(), ShapeOf(ThreeLevels());
    ThreeLevelsShape();
    forall x, c | x in g && c in g[x].children && c in g ensures rank[c] < rank[x] {
      assert x == 0 || x == 1 || x == 2;
    }
    assert SubAll(g, rank, [], 0) == {};
  }

  lemma ThreeLevelsLinked()
    ensures WellLinked(ShapeOf(ThreeLevels()))
  {
    var g := ShapeOf(ThreeLevels());
    ThreeLevelsShape();
    forall x, c | x in g && c in g[x].children && c in g ensures g[c].parent == Some(x) {
      assert x == 0 || x == 1 || x == 2;
    }
    forall c | c in g && g[c].parent.Some?
      ensures g[c].parent.value in g && c in g[g[c].parent.value].children
    {
      assert c == 0 || c == 1 || c == 2;
    }
    forall x | x in g ensures NoDup(g[x].children) {
      assert x == 0 || x == 1 || x == 2;
    }
  }

  lemma ThreeLevelsLevels()
    ensures HeightsOk(ThreeLevels()) && RootsOk(ThreeLevels())
  {
    var nodes := ThreeLevels();
    forall y, q | y in nodes && nodes[y].parentNode == Some(q) && q in nodes
      ensures nodes[y].height == nodes[q].height + 1 && nodes[y].rootNode == nodes[q].rootNode
    {
      assert y == 0 || y == 1 || y == 2;
    }
  }

  /** The store the move of node 2 under node 0 should leave. */
  function GrandchildMoved(): map<Id, NodeRec>
  {
    map[
      0 := NodeRec("Root Node", 0, Some(0), None, [1, 2]),
      1 := NodeRec("Child Node", 1, Some(0), Some(0), []),
      2 := NodeRec("Lower Child Node", 1, Some(0), Some(0), [])]
  }

  /** The move is allowed. */
  lemma GrandchildAllowed()
    ensures MoveAllowed(ThreeLevels(), 2, 0, ThreeRank())
    ensures OldParentOf(ThreeLevels(), 2) == Some(1)
  {
    ThreeLevelsRanked();
  }

  /** The fields of the three records that the move reads, one by one. */
  lemma ThreeLevelsFields()
    ensures var nodes := ThreeLevels();
      && nodes.Keys == {0, 1, 2}
      && nodes[0].height == 0 && nodes[0].children + [2] == [1, 2]
      && nodes[1].description == "Child Node" && nodes[1].rootNode == Some(0)
      && nodes[1].parentNode == Some(0) && Removed(nodes[1].children, 2) == []
      && nodes[2].description == "Lower Child Node" && nodes[2].rootNode == Some(0)
      && nodes[2].children == []
  {
    var nodes := ThreeLevels();
    assert nodes[0].children == [1];
    assert nodes[1].children == [2];
  }

  /** The moved node hangs under the root, one level below it. */
  lemma GrandchildLinks()
    ensures var rank := ThreeRank();
      && MoveAllowed(ThreeLevels(), 2, 0, rank)
      && var r := Moved(ThreeLevels(), 2, 0, rank);
      && r.Keys == {0, 1, 2}
      && r[2].parentNode == Some(0) && r[2].height == 1 && r[2].children == []
  {
    GrandchildAllowed();
    MoveOutcome(ThreeLevels(), 2, 0, ThreeRank());
    ThreeLevelsFields();
  }

  /** The root lists the moved node after its old child. */
  lemma GrandchildNewParent()
    ensures var rank := ThreeRank();
      && MoveAllowed(ThreeLevels(), 2, 0, rank)
      && Moved(ThreeLevels(), 2, 0, rank)[0] == ThreeLevels()[0].(children := [1, 2])
  {
    GrandchildAllowed();
    MovedNewParent(ThreeLevels(), 2, 0, ThreeRank());
    ThreeLevelsFields();
  }

  /** The old parent no longer lists the moved node and keeps its own parent. */
  lemma GrandchildOldParent()
    ensures var rank := ThreeRank();
      && MoveAllowed(ThreeLevels(), 2, 0, rank)
      && var r := Moved(ThreeLevels(), 2, 0, rank);
      && r[1].children == [] && r[1].parentNode == Some(0)
  {
    GrandchildAllowed();
    MoveOutcome(ThreeLevels(), 2, 0, ThreeRank());
    ThreeLevelsFields();
  }

  /** The move keeps the labels and the roots. */
  lemma GrandchildLabels()
    ensures var rank := ThreeRank();
      && MoveAllowed(ThreeLevels(), 2, 0, rank)
      && var r := Moved(ThreeLevels(), 2, 0, rank);
      && r[1].description == "Child Node" && r[1].rootNode == Some(0)
      && r[2].description == "Lower Child Node" && r[2].rootNode == Some(0)
  {
    GrandchildAllowed();
    MoveOutcome(ThreeLevels(), 2, 0, ThreeRank());
    ThreeLevelsFields();
  }

  /** The middle node keeps its height. */
  lemma GrandchildHeights()
    ensures var rank := ThreeRank();
      && MoveAllowed(ThreeLevels(), 2, 0, rank)
      && Moved(ThreeLevels(), 2, 0, rank)[1].height == 1
  {
    GrandchildAllowed();
    ThreeLevelsRanked();
    ThreeLevelsLinked();
    MoveReheights(ThreeLevels(), 2, 0, ThreeRank());
  }

  /**
    Moving the grandchild under the root: heights 0/1/1, the root lists both
    other nodes, the middle node no longer lists the moved one, and every
    root stays 0.
   */
  lemma GrandchildToRoot()
    ensures var rank := ThreeRank();
      && MoveAllowed(ThreeLevels(), 2, 0, rank)
      && Moved(ThreeLevels(), 2, 0, rank) == GrandchildMoved()
  {
    var r, e := Moved(ThreeLevels(), 2, 0, ThreeRank()), GrandchildMoved();
    GrandchildLinks();
    GrandchildNewParent();
    GrandchildOldParent();
    GrandchildLabels();
    GrandchildHeights();
    GrandchildExpected();
    SameThree(r, e);
  }

  /** Two stores over ids 0, 1, 2 that agree on each record are equal. */
  lemma SameThree(r: map<Id, NodeRec>, e: map<Id, NodeRec>)
    requires r.Keys == {0, 1, 2} && e.Keys == {0, 1, 2}
    requires r[0] == e[0] && r[1] == e[1] && r[2] == e[2]
    ensures r == e
  {
    assert forall k :: k in r ==> k == 0 || k == 1 || k == 2;
  }

  /** The expected store, record by record. */
  lemma GrandchildExpected()
    ensures var e := GrandchildMoved();
      && e.Keys == {0, 1, 2}
      && e[0] == ThreeLevels()[0].(children := [1, 2])
      && e[1] == NodeRec("Child Node", 1, Some(0), Some(0), [])
      && e[2] == NodeRec("Lower Child Node", 1, Some(0), Some(0), [])
  {
  }

  /**
    The chain root, a, c, d that `populateDatabase` links and saves before
    calibrating; only the root's height is set there, so the others are
    left arbitrary.
   */
  function Chain(h1: int, h2: int, h3: int): map<Id, NodeRec>
  {
    map[
      0 := NodeRec("root", 0, None, None, [1]),
      1 := NodeRec("a", h1, None, Some(0), [2]),
      2 := NodeRec("c", h2, None, Some(1), [3]),
      3 := NodeRec("d", h3, None, Some(2), [])]
  }

  function ChainRank(): map<Id, nat>
  {
    map[0 := 3, 1 := 2, 2 := 1, 3 := 0]
  }

  lemma ChainRanked(h1: int, h2: int, h3: int)
    ensures Ranked(ShapeOf(Chain(h1, h2, h3)), ChainRank())
  {
    var g, rank := ShapeOf(Chain(h1, h2, h3)), ChainRank();
    assert Chain(h1, h2, h3).Keys == {0, 1, 2, 3};
    forall x, c | x in g && c in g[x].children && c in g ensures rank[c] < rank[x] {
      assert x == 0 || x == 1 || x == 2 || x == 3;
    }
  }

  /** The walk from a record without children stamps that record alone. */
  lemma WalkLeaf(nodes: map<Id, NodeRec>, x: Id, height: int, root: Option<Id>, rank: map<Id, nat>)
    requires Ranked(ShapeOf(nodes), rank) && x in nodes && nodes[x].children == []
    ensures Walk(nodes, x, height, root, rank) == nodes[x := Stamp(nodes[x], height, root)]
  {
    assert WalkAll(nodes, [], height + 1, root, rank, rank[x]) == nodes;
  }

  /** The walk from a record with one child walks that child, then stamps the record. */
  lemma WalkOnlyChild(nodes: map<Id, NodeRec>, x: Id, c: Id, height: int, below: int, root: Option<Id>,
                      rank: map<Id, nat>)
    requires Ranked(ShapeOf(nodes), rank) && x in nodes && nodes[x].children == [c] && below == height + 1
    ensures Walk(nodes, x, height, root, rank)
         == Walk(nodes, c, below, root, rank)[x := Stamp(nodes[x], height, root)]
  {
    var w := Walk(nodes, c, height + 1, root, rank);
    assert [c][1..] == [];
    assert WalkAll(w, [], height + 1, root, rank, rank[x]) == w;
  }

  /** The chain walk, record by record from the leaf up. */
  lemma ChainWalk(h1: int, h2: int, h3: int)
    ensures Ranked(ShapeOf(Chain(h1, h2, h3)), ChainRank())
    ensures Walk(Chain(h1, h2, h3), 0, 0, Some(0), ChainRank())
         == Chain(h1, h2, h3)[3 := NodeRec("d", 3, Some(0), Some(2), [])]
                             [2 := NodeRec("c", 2, Some(0), Some(1), [3])]
                             [1 := NodeRec("a", 1, Some(0), Some(0), [2])]
                             [0 := NodeRec("root", 0, Some(0), None, [1])]
  {
    var n, rank, root := Chain(h1, h2, h3), ChainRank(), Some(0);
    ChainRanked(h1, h2, h3);
    WalkLeaf(n, 3, 3, root, rank);
    WalkOnlyChild(n, 2, 3, 2, 3, root, rank);
    WalkOnlyChild(n, 1, 2, 1, 2, root, rank);
    WalkOnlyChild(n, 0, 1, 0, 1, root, rank);
  }

  /**
    Calibrating the chain from its root with the root's id gives heights
    0, 1, 2, 3 and the root id on every record, whatever the heights were.
   */
  lemma ChainCalibrated(h1: int, h2: int, h3: int)
    ensures Ranked(ShapeOf(Chain(h1, h2, h3)), ChainRank())
    ensures var w := Walk(Chain(h1, h2, h3), 0, 0, Some(0), ChainRank());
      && w.Keys == {0, 1, 2, 3}
      && w[0] == NodeRec("root", 0, Some(0), None, [1])
      && w[1] == NodeRec("a", 1, Some(0), Some(0), [2])
      && w[2] == NodeRec("c", 2, Some(0), Some(1), [3])
      && w[3] == NodeRec("d", 3, Some(0), Some(2), [])
  {
    ChainWalk(h1, h2, h3);
  }
}
