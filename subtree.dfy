/**
  The subtree below a node, as the walk of `calibrateHeightRoot` in
  app/model/node.ts reaches it through the `children` lists, and the depth
  of a node in it, counted along `parentNode` pointers.
 */
module Subtree {
  import opened NodeRecords

  /** The ids reached from x through child lists, x included when stored. */
  ghost function Sub(g: Shape, rank: map<Id, nat>, x: Id): (r: set<Id>)
    requires Ranked(g, rank)
    ensures r <= g.Keys
    ensures x in g <==> x in r
    ensures x in g ==> forall y :: y in r ==> rank[y] <= rank[x]
    decreases if x in g then rank[x] + 1 else 0, 0
  {
    if x !in g then {} else {x} + SubAll(g, rank, g[x].children, rank[x])
  }

  /** The union of the subtrees of ids, all ranked below bound. */
  ghost function SubAll(g: Shape, rank: map<Id, nat>, ids: seq<Id>, bound: nat): (r: set<Id>)
    requires Ranked(g, rank)
    requires forall c :: c in ids && c in g ==> rank[c] < bound
    ensures r <= g.Keys
    ensures forall y :: y in r ==> rank[y] < bound
    decreases bound, |ids|
  {
    if ids == [] then {} else Sub(g, rank, ids[0]) + SubAll(g, rank, ids[1..], bound)
  }

  lemma {:induction false} SubAllMember(g: Shape, rank: map<Id, nat>, ids: seq<Id>, bound: nat, c: Id)
    requires Ranked(g, rank)
    requires forall c :: c in ids && c in g ==> rank[c] < bound
    requires c in ids
    ensures Sub(g, rank, c) <= SubAll(g, rank, ids, bound)
    decreases |ids|
  {
    if ids[0] != c {
      SubAllMember(g, rank, ids[1..], bound, c);
    }
  }

  lemma {:induction false} SubAllWitness(g: Shape, rank: map<Id, nat>, ids: seq<Id>, bound: nat, y: Id)
    requires Ranked(g, rank)
    requires forall c :: c in ids && c in g ==> rank[c] < bound
    requires y in SubAll(g, rank, ids, bound)
    ensures exists c :: c in ids && c in g && y in Sub(g, rank, c)
    decreases |ids|
  {
    if y !in Sub(g, rank, ids[0]) {
      SubAllWitness(g, rank, ids[1..], bound, y);
      var c :| c in ids[1..] && c in g && y in Sub(g, rank, c);
      assert c in ids;
    }
  }

  /** A stored child's subtree lies inside its parent's. */
  lemma SubChild(g: Shape, rank: map<Id, nat>, x: Id, c: Id)
    requires Ranked(g, rank)
    requires x in g && c in g[x].children
    ensures Sub(g, rank, c) <= Sub(g, rank, x)
  {
    SubAllMember(g, rank, g[x].children, rank[x], c);
  }

  /** Subtrees are closed: the subtree of a member lies inside. */
  lemma {:induction false} SubTrans(g: Shape, rank: map<Id, nat>, x: Id, y: Id)
    requires Ranked(g, rank)
    requires y in Sub(g, rank, x)
    ensures Sub(g, rank, y) <= Sub(g, rank, x)
    decreases rank[x]
  {
    if y != x {
      SubAllWitness(g, rank, g[x].children, rank[x], y);
      var c :| c in g[x].children && c in g && y in Sub(g, rank, c);
      SubTrans(g, rank, c, y);
      SubChild(g, rank, x, c);
    }
  }

  /** A subtree holds every stored child of each of its members. */
  lemma SubClosed(g: Shape, rank: map<Id, nat>, x: Id)
    requires Ranked(g, rank)
    ensures forall y, c :: y in Sub(g, rank, x) && c in g[y].children && c in g ==> c in Sub(g, rank, x)
  {
    forall y, c | y in Sub(g, rank, x) && c in g[y].children && c in g
      ensures c in Sub(g, rank, x)
    {
      SubTrans(g, rank, x, y);
      SubChild(g, rank, y, c);
    }
  }

  /**
    When children point back at their parents, every member of x's subtree
    other than x has its parent inside the subtree.
   */
  lemma {:induction false} SubParent(g: Shape, rank: map<Id, nat>, x: Id, y: Id)
    requires Ranked(g, rank) && ChildLinked(g)
    requires y in Sub(g, rank, x) && y != x
    ensures g[y].parent.Some?
    ensures g[y].parent.value in Sub(g, rank, x)
    ensures rank[y] < rank[g[y].parent.value]
    decreases rank[x]
  {
    SubAllWitness(g, rank, g[x].children, rank[x], y);
    var c :| c in g[x].children && c in g && y in Sub(g, rank, c);
    SubChild(g, rank, x, c);
    if y != c {
      SubParent(g, rank, c, y);
    }
  }

  /** The number of parent steps from y up to x, for y in x's subtree. */
  ghost function Depth(g: Shape, rank: map<Id, nat>, x: Id, y: Id): (d: nat)
    requires Ranked(g, rank) && ChildLinked(g)
    requires y in Sub(g, rank, x)
    ensures d == 0 <==> y == x
    decreases rank[x] - rank[y]
  {
    if y == x then 0
    else
      SubParent(g, rank, x, y);
      1 + Depth(g, rank, x, g[y].parent.value)
  }

  /** Seen from a child c of x, every node of c's subtree is one level closer. */
  lemma {:induction false} DepthStep(g: Shape, rank: map<Id, nat>, x: Id, c: Id, y: Id)
    requires Ranked(g, rank) && ChildLinked(g)
    requires x in g && c in g[x].children && c in g
    requires y in Sub(g, rank, c)
    ensures y in Sub(g, rank, x)
    ensures Depth(g, rank, x, y) == Depth(g, rank, c, y) + 1
    decreases rank[c] - rank[y]
  {
    SubChild(g, rank, x, c);
    if y != c {
      SubParent(g, rank, c, y);
      DepthStep(g, rank, x, c, g[y].parent.value);
    }
  }

  /**
    Two shapes over the same ids that agree on every child list inside x's
    subtree have the same subtree below x, whatever ranks witness them.
   */
  lemma {:induction false} SubSame(g: Shape, rank: map<Id, nat>, g2: Shape, rank2: map<Id, nat>, x: Id)
    requires Ranked(g, rank) && Ranked(g2, rank2) && g2.Keys == g.Keys
    requires forall y :: y in Sub(g, rank, x) ==> g2[y].children == g[y].children
    ensures Sub(g2, rank2, x) == Sub(g, rank, x)
    decreases if x in g then rank[x] + 1 else 0, 0
  {
    if x in g {
      SubAllSame(g, rank, g2, rank2, g[x].children, rank[x], rank2[x]);
    }
  }

  lemma {:induction false} SubAllSame(g: Shape, rank: map<Id, nat>, g2: Shape, rank2: map<Id, nat>,
                                      ids: seq<Id>, bound: nat, bound2: nat)
    requires Ranked(g, rank) && Ranked(g2, rank2) && g2.Keys == g.Keys
    requires forall c :: c in ids && c in g ==> rank[c] < bound
    requires forall c :: c in ids && c in g2 ==> rank2[c] < bound2
    requires forall y :: y in SubAll(g, rank, ids, bound) ==> g2[y].children == g[y].children
    ensures SubAll(g2, rank2, ids, bound2) == SubAll(g, rank, ids, bound)
    decreases bound, |ids|
  {
    if ids != [] {
      SubSame(g, rank, g2, rank2, ids[0]);
      SubAllSame(g, rank, g2, rank2, ids[1..], bound, bound2);
    }
  }

  /**
    Depth below x only follows parent pointers inside x's subtree, so two
    shapes with the same subtree and the same pointers there agree on it.
   */
  lemma {:induction false} DepthSame(g: Shape, rank: map<Id, nat>, g2: Shape, rank2: map<Id, nat>, x: Id, y: Id)
    requires Ranked(g, rank) && ChildLinked(g) && Ranked(g2, rank2) && ChildLinked(g2)
    requires Sub(g2, rank2, x) == Sub(g, rank, x)
    requires forall z :: z in Sub(g, rank, x) && z != x ==> g2[z].parent == g[z].parent
    requires y in Sub(g, rank, x)
    ensures Depth(g2, rank2, x, y) == Depth(g, rank, x, y)
    decreases rank[x] - rank[y]
  {
    if y != x {
      SubParent(g, rank, x, y);
      DepthSame(g, rank, g2, rank2, x, g[y].parent.value);
    }
  }
}
