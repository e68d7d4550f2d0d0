/** Mapping the nodes of a constrained tree onto those of the full tree. */
module Mapping {
  import opened Wrappers
  import opened Tree
  import opened Restruct
  import opened Alike

  type Bases = map<CDFnode, CDFnode>

  // ----- The map, as a value

  /** The map after a subtree has been mapped onto a full one: later matches replace earlier ones. */
  function Assign(con: Shape, full: Shape, a: Bases, columbia: bool): Bases
    decreases con, |con.kids| + 1, 0
  {
    AssignKids(con, |con.kids|, full, a[con.node := full.node], columbia)
  }

  /** The map after the first i children of con have been mapped. */
  function AssignKids(con: Shape, i: nat, full: Shape, a: Bases, columbia: bool): Bases
    requires i <= |con.kids|
    decreases con, i, 0
  {
    if i == 0 then a
    else AssignKid(con.kids[i - 1], full, |full.kids|, AssignKids(con, i - 1, full, a, columbia), columbia)
  }

  /** The map after a child has been tried on the first j children of full. */
  function AssignKid(kid: Shape, full: Shape, j: nat, a: Bases, columbia: bool): Bases
    requires j <= |full.kids|
    decreases kid, |kid.kids| + 2, j
  {
    if j == 0 then a
    else
      var b := AssignKid(kid, full, j - 1, a, columbia);
      if SimpleNodeMatch(full.kids[j - 1].node, kid.node, columbia) then Assign(kid, full.kids[j - 1], b, columbia)
      else b
  }

  /** Mapping a subtree leaves the nodes outside it alone. */
  lemma {:induction false} AssignElsewhere(con: Shape, full: Shape, a: Bases, columbia: bool, x: CDFnode)
    requires x !in Nodes(con)
    ensures var b := Assign(con, full, a, columbia); (x in b <==> x in a) && (x in a ==> b[x] == a[x])
    decreases con, |con.kids| + 1, 0
  {
    AssignKidsElsewhere(con, |con.kids|, full, a[con.node := full.node], columbia, x);
  }

  lemma {:induction false} AssignKidsElsewhere(con: Shape, i: nat, full: Shape, a: Bases, columbia: bool, x: CDFnode)
    requires i <= |con.kids| && x !in NodesUpTo(con, i)
    ensures var b := AssignKids(con, i, full, a, columbia); (x in b <==> x in a) && (x in a ==> b[x] == a[x])
    decreases con, i, 0
  {
    if i > 0 {
      AssignKidsElsewhere(con, i - 1, full, a, columbia, x);
      AssignKidElsewhere(con.kids[i - 1], full, |full.kids|, AssignKids(con, i - 1, full, a, columbia), columbia, x);
    }
  }

  lemma {:induction false} AssignKidElsewhere(kid: Shape, full: Shape, j: nat, a: Bases, columbia: bool, x: CDFnode)
    requires j <= |full.kids| && x !in Nodes(kid)
    ensures var b := AssignKid(kid, full, j, a, columbia); (x in b <==> x in a) && (x in a ==> b[x] == a[x])
    decreases kid, |kid.kids| + 2, j
  {
    if j > 0 {
      AssignKidElsewhere(kid, full, j - 1, a, columbia, x);
      AssignElsewhere(kid, full.kids[j - 1], AssignKid(kid, full, j - 1, a, columbia), columbia, x);
    }
  }

  // ----- The assertions on the way

  /** Every pair of nodes that the walk comes to matches the other way round, too, and the constrained node has no more
      children than the full one: the assertions of the walk hold. */
  predicate RunsThrough(con: Shape, full: Shape, columbia: bool)
    decreases con, |con.kids| + 1
  {
    && SimpleNodeMatch(con.node, full.node, columbia) && |con.kids| <= |full.kids|
    && forall i {:trigger KidRuns(con.kids[i], full, |full.kids|, columbia)} :: 0 <= i < |con.kids| ==>
         KidRuns(con.kids[i], full, |full.kids|, columbia)
  }

  /** The assertions hold wherever the child matches one of the first n children of full. */
  predicate KidRuns(kid: Shape, full: Shape, n: nat, columbia: bool)
    requires n <= |full.kids|
    decreases kid, |kid.kids| + 2
  {
    forall j :: 0 <= j < n && SimpleNodeMatch(full.kids[j].node, kid.node, columbia) ==>
      RunsThrough(kid, full.kids[j], columbia)
  }

  // ----- The map of a tree that agrees with the full one

  /** Among children of different names a child matches its namesake only. */
  lemma {:induction false} OnlyNamesake(con: Shape, full: Shape, i: nat, j: nat, columbia: bool)
    requires AlikeTrees(con, full) && NoInnerDataset(con) && i < |con.kids| && j < |full.kids|
    ensures SimpleNodeMatch(full.kids[j].node, con.kids[i].node, columbia) <==> i == j
  {
    assert AlikeTrees(con.kids[i], full.kids[i]) && AlikeTrees(con.kids[j], full.kids[j]);
    AlikeMatch(con.kids[i].node, full.kids[i].node, columbia);
    assert i < j || j < i ==> full.kids[i].node.ocname != full.kids[j].node.ocname;
  }

  lemma {:induction false} AlikeKid(con: Shape, full: Shape, i: nat, j: nat, a: Bases, columbia: bool)
    requires AlikeTrees(con, full) && NoInnerDataset(con) && i < |con.kids| && j <= |full.kids|
    ensures AssignKid(con.kids[i], full, j, a, columbia)
         == if i < j then Assign(con.kids[i], full.kids[i], a, columbia) else a
  {
    if j > 0 {
      AlikeKid(con, full, i, j - 1, a, columbia);
      OnlyNamesake(con, full, i, j - 1, columbia);
    }
  }

  /** Below child i the map is that of the child onto its namesake. */
  lemma {:induction false} AlikeKids(con: Shape, full: Shape, n: nat, i: nat, a: Bases, columbia: bool, x: CDFnode)
    requires AlikeTrees(con, full) && NoInnerDataset(con) && Distinct(con) && i < n <= |con.kids|
    requires x in Nodes(con.kids[i])
    ensures var own := Assign(con.kids[i], full.kids[i], AssignKids(con, i, full, a, columbia), columbia);
            var b := AssignKids(con, n, full, a, columbia);
            (x in b <==> x in own) && (x in own ==> b[x] == own[x])
  {
    if i == n - 1 {
      AlikeKid(con, full, i, |full.kids|, AssignKids(con, i, full, a, columbia), columbia);
    } else {
      AlikeKids(con, full, n - 1, i, a, columbia, x);
      assert Nodes(con.kids[i]) !! Nodes(con.kids[n - 1]);
      AssignKidElsewhere(con.kids[n - 1], full, |full.kids|, AssignKids(con, n - 1, full, a, columbia), columbia, x);
    }
  }

  /** Every node of a tree that agrees with the full one is mapped to the node at its place. */
  lemma {:induction false} AlikeMapped(con: Shape, full: Shape, a: Bases, columbia: bool, path: seq<nat>)
    requires AlikeTrees(con, full) && NoInnerDataset(con) && Distinct(con) && IsPath(con, path) && IsPath(full, path)
    ensures var b := Assign(con, full, a, columbia);
            At(con, path).node in b && b[At(con, path).node] == At(full, path).node
    decreases |path|
  {
    var own := a[con.node := full.node];
    if path == [] {
      NotBelow(con);
      AssignKidsElsewhere(con, |con.kids|, full, own, columbia, con.node);
    } else {
      var i := path[0];
      AlongEnds(con.kids[i], path[1..]);
      AlikeKids(con, full, |con.kids|, i, own, columbia, At(con, path).node);
      AlikeMapped(con.kids[i], full.kids[i], AssignKids(con, i, full, own, columbia), columbia, path[1..]);
    }
  }

  /** On such a tree the assertions hold. */
  lemma {:induction false} AlikeRuns(con: Shape, full: Shape, columbia: bool)
    requires AlikeTrees(con, full) && NoInnerDataset(con)
    ensures RunsThrough(con, full, columbia)
  {
    AlikeMatch(con.node, full.node, columbia);
    forall i | 0 <= i < |con.kids|
      ensures KidRuns(con.kids[i], full, |full.kids|, columbia)
    {
      AlikeRuns(con.kids[i], full.kids[i], columbia);
      forall j | 0 <= j < |full.kids|
        ensures SimpleNodeMatch(full.kids[j].node, con.kids[i].node, columbia) <==> i == j
      {
        OnlyNamesake(con, full, i, j, columbia);
      }
    }
  }

  /** The node at a place has the node at the same place of the full tree for its base. */
  ghost predicate IsInPlace(con: Shape, full: Shape, path: seq<nat>)
    requires IsPath(con, path)
    reads At(con, path).node`basenode
  {
    IsPath(full, path) && At(con, path).node.basenode == At(full, path).node
  }

  ghost predicate AreInPlace(con: Shape, full: Shape)
    reads Nodes(con)`basenode
  {
    forall path: seq<nat> :: IsPath(con, path) ==> (AlongEnds(con, path); IsInPlace(con, full, path))
  }

  lemma {:induction false} AlikeInPlace(con: Shape, full: Shape, nodes: set<CDFnode>, columbia: bool)
    requires AlikeTrees(con, full) && NoInnerDataset(con) && Distinct(con)
    requires Nodes(con) <= nodes && BasesAre(nodes, Assign(con, full, map[], columbia))
    ensures AreInPlace(con, full)
  {
    forall path: seq<nat> | IsPath(con, path)
      ensures IsInPlace(con, full, path)
    {
      AlongEnds(con, path);
      AlikePath(con, full, path);
      AlikeMapped(con, full, map[], columbia, path);
    }
  }

  // ----- What is mapped to what

  /** The node is the root, or alike its base, or the base is a columbia dataset. */
  predicate IsAlikeBase(x: CDFnode, b: CDFnode, root: CDFnode, columbia: bool)
  {
    x == root || AlikeNodes(x, b) || (columbia && b.nctype == Dataset)
  }

  predicate AllAlike(a: Bases, root: CDFnode, columbia: bool)
  {
    forall x <- a :: IsAlikeBase(x, a[x], root, columbia)
  }

  lemma {:induction false} AssignAlike(con: Shape, full: Shape, a: Bases, columbia: bool, root: CDFnode)
    requires AllAlike(a, root, columbia) && (con.node == root || SimpleNodeMatch(full.node, con.node, columbia))
    ensures AllAlike(Assign(con, full, a, columbia), root, columbia)
    decreases con, |con.kids| + 1, 0
  {
    MatchIffAlike(full.node, con.node, columbia);
    AssignKidsAlike(con, |con.kids|, full, a[con.node := full.node], columbia, root);
  }

  lemma {:induction false} AssignKidsAlike(con: Shape, i: nat, full: Shape, a: Bases, columbia: bool, root: CDFnode)
    requires AllAlike(a, root, columbia) && i <= |con.kids|
    ensures AllAlike(AssignKids(con, i, full, a, columbia), root, columbia)
    decreases con, i, 0
  {
    if i > 0 {
      AssignKidsAlike(con, i - 1, full, a, columbia, root);
      AssignKidAlike(con.kids[i - 1], full, |full.kids|, AssignKids(con, i - 1, full, a, columbia), columbia, root);
    }
  }

  lemma {:induction false} AssignKidAlike(kid: Shape, full: Shape, j: nat, a: Bases, columbia: bool, root: CDFnode)
    requires AllAlike(a, root, columbia) && j <= |full.kids|
    ensures AllAlike(AssignKid(kid, full, j, a, columbia), root, columbia)
    decreases kid, |kid.kids| + 2, j
  {
    if j > 0 {
      AssignKidAlike(kid, full, j - 1, a, columbia, root);
      if SimpleNodeMatch(full.kids[j - 1].node, kid.node, columbia) {
        AssignAlike(kid, full.kids[j - 1], AssignKid(kid, full, j - 1, a, columbia), columbia, root);
      }
    }
  }

  // ----- The passes

  /** The base nodes of the nodes are those that the map gives. */
  ghost predicate BasesAre(nodes: set<CDFnode>, a: Bases)
    reads nodes`basenode
  {
    forall n <- nodes :: n.basenode == if n in a then a[n] else null
  }

  /** Forget all associations. */
  method Unmap(tree: CDFtree, ghost nodes: set<CDFnode>)
    requires forall n :: n in nodes <==> n in tree.nodes
    modifies nodes`basenode
    ensures BasesAre(nodes, map[])
  {
    var i := 0;
    while i < |tree.nodes|
      invariant 0 <= i <= |tree.nodes|
      invariant forall k :: 0 <= k < i ==> tree.nodes[k].basenode == null
    {
      tree.nodes[i].basenode := null;
      i := i + 1;
    }
  }

  /** How a pass ends: it returns a code, or an assertion stops the program. */
  datatype Ending = Returned(err: ErrCode) | Aborted

  /** Map a node, and the nodes below it, until an assertion fails. A program built without assertions goes on. */
  method MapNodesR(connode: CDFnode, fullnode: CDFnode, columbia: bool, debug: bool, ghost con: Shape,
                   ghost full: Shape, ghost nodes: set<CDFnode>, ghost a: Bases) returns (running: bool)
    requires con.node == connode && Linked(con) && full.node == fullnode && Linked(full)
    requires Nodes(con) <= nodes && BasesAre(nodes, a)
    modifies nodes`basenode
    ensures running <==> (debug ==> RunsThrough(con, full, columbia))
    ensures running ==> BasesAre(nodes, Assign(con, full, a, columbia))
    decreases con, |con.kids| + 1, 1
  {
    NodesAllocated(con);
    NodesAllocated(full);
    if debug && !SimpleNodeMatch(connode, fullnode, columbia) {
      return false;
    }
    connode.basenode := fullnode;
    assert Linked(con) && Linked(full);
    if debug && |connode.subnodes| > |fullnode.subnodes| {
      return false;
    }
    running := MapKids(connode, fullnode, columbia, debug, con, full, nodes, a[con.node := full.node]);
  }

  /** The assertions hold for the first n children. */
  predicate KidsRun(con: Shape, n: nat, full: Shape, columbia: bool)
    requires n <= |con.kids|
  {
    forall i {:trigger KidRuns(con.kids[i], full, |full.kids|, columbia)} :: 0 <= i < n ==>
      KidRuns(con.kids[i], full, |full.kids|, columbia)
  }

  lemma {:induction false} OneMoreRuns(con: Shape, i: nat, full: Shape, columbia: bool)
    requires i < |con.kids|
    ensures KidsRun(con, i + 1, full, columbia) <==>
              KidsRun(con, i, full, columbia) && KidRuns(con.kids[i], full, |full.kids|, columbia)
    ensures KidsRun(con, |con.kids|, full, columbia) ==> KidRuns(con.kids[i], full, |full.kids|, columbia)
  {
  }

  /** Map the children of a node. */
  method MapKids(connode: CDFnode, fullnode: CDFnode, columbia: bool, debug: bool, ghost con: Shape, ghost full: Shape,
                 ghost nodes: set<CDFnode>, ghost a: Bases) returns (running: bool)
    requires con.node == connode && Linked(con) && full.node == fullnode && Linked(full)
    requires Nodes(con) <= nodes && BasesAre(nodes, a)
    modifies nodes`basenode
    ensures running <==> (debug ==> KidsRun(con, |con.kids|, full, columbia))
    ensures running ==> BasesAre(nodes, AssignKids(con, |con.kids|, full, a, columbia))
    decreases con, |con.kids| + 1, 0
  {
    running := true;
    var i := 0;
    while i < |connode.subnodes| && running
      invariant 0 <= i <= |connode.subnodes| == |con.kids| && Linked(con) && Linked(full)
      invariant running ==>
                  (debug ==> KidsRun(con, i, full, columbia)) && BasesAre(nodes, AssignKids(con, i, full, a, columbia))
      invariant !running ==> debug && !KidsRun(con, |con.kids|, full, columbia)
    {
      running := MapKidAt(connode, i, fullnode, columbia, debug, con, full, nodes, a);
      OneMoreRuns(con, i, full, columbia);
      i := i + 1;
    }
  }

  /** Map child i of a node. */
  method MapKidAt(connode: CDFnode, i: nat, fullnode: CDFnode, columbia: bool, debug: bool, ghost con: Shape,
                  ghost full: Shape, ghost nodes: set<CDFnode>, ghost a: Bases) returns (running: bool)
    requires con.node == connode && Linked(con) && full.node == fullnode && Linked(full) && i < |con.kids|
    requires Nodes(con) <= nodes && BasesAre(nodes, AssignKids(con, i, full, a, columbia))
    modifies nodes`basenode
    ensures Linked(con) && Linked(full)
    ensures running <==> (debug ==> KidRuns(con.kids[i], full, |full.kids|, columbia))
    ensures running ==> BasesAre(nodes, AssignKids(con, i + 1, full, a, columbia))
    decreases con, |con.kids|, 1
  {
    NodesAllocated(con);
    NodesAllocated(full);
    KidNodes(con, i);
    running := MapKid(connode.subnodes[i], fullnode, columbia, debug, con.kids[i], full, nodes,
                      AssignKids(con, i, full, a, columbia));
  }

  /** Map a child onto every child of the full node that it matches. */
  method MapKid(consubnode: CDFnode, fullnode: CDFnode, columbia: bool, debug: bool, ghost kid: Shape,
                ghost full: Shape, ghost nodes: set<CDFnode>, ghost a: Bases) returns (running: bool)
    requires kid.node == consubnode && Linked(kid) && full.node == fullnode && Linked(full)
    requires Nodes(kid) <= nodes && BasesAre(nodes, a)
    modifies nodes`basenode
    ensures running <==> (debug ==> KidRuns(kid, full, |full.kids|, columbia))
    ensures running ==> BasesAre(nodes, AssignKid(kid, full, |full.kids|, a, columbia))
    decreases kid, |kid.kids| + 2, 0
  {
    NodesAllocated(kid);
    NodesAllocated(full);
    var j := 0;
    while j < |fullnode.subnodes|
      invariant 0 <= j <= |fullnode.subnodes| == |full.kids|
      invariant debug ==> KidRuns(kid, full, j, columbia)
      invariant BasesAre(nodes, AssignKid(kid, full, j, a, columbia))
    {
      assert Linked(kid) && Linked(full);
      var fullsubnode := fullnode.subnodes[j];
      if SimpleNodeMatch(fullsubnode, consubnode, columbia) {
        running := MapNodesR(consubnode, fullsubnode, columbia, debug, kid, full.kids[j], nodes,
                             AssignKid(kid, full, j, a, columbia));
        if !running {
          return;
        }
      }
      j := j + 1;
    }
    running := true;
  }

  /** Map a tree onto the full one, when the roots match. */
  method MapNodes(root: CDFnode, fullroot: CDFnode, tree: CDFtree, columbia: bool, debug: bool, ghost con: Shape,
                  ghost full: Shape, ghost nodes: set<CDFnode>) returns (end: Ending)
    requires con.node == root && Linked(con) && full.node == fullroot && Linked(full)
    requires Nodes(con) <= nodes && forall n :: n in nodes <==> n in tree.nodes
    modifies nodes`basenode
    ensures end == if !SimpleNodeMatch(root, fullroot, columbia) then Returned(NC_EINVAL)
                   else if debug && !RunsThrough(con, full, columbia) then Aborted
                   else Returned(NC_NOERR)
    ensures end == Returned(NC_NOERR) ==> BasesAre(nodes, Assign(con, full, map[], columbia))
    ensures end == Returned(NC_EINVAL) ==> forall n <- nodes :: n.basenode == old(n.basenode)
    ensures end == Returned(NC_NOERR) ==>
              forall n <- nodes :: n.basenode != null ==> IsAlikeBase(n, n.basenode, root, columbia)
    ensures AlikeTrees(con, full) && NoInnerDataset(con) && Distinct(con) ==>
              end == Returned(NC_NOERR) && AreInPlace(con, full)
  {
    MatchIffAlike(root, fullroot, columbia);
    AssignAlike(con, full, map[], columbia, root);
    if !SimpleNodeMatch(root, fullroot, columbia) {
      return Returned(NC_EINVAL);
    }
    NodesAllocated(con);
    NodesAllocated(full);
    Unmap(tree, nodes);
    assert Linked(con) && Linked(full);
    var running := MapNodesR(root, fullroot, columbia, debug, con, full, nodes, map[]);
    end := if running then Returned(NC_NOERR) else Aborted;
    if AlikeTrees(con, full) && NoInnerDataset(con) && Distinct(con) {
      AlikeRuns(con, full, columbia);
      AlikeInPlace(con, full, nodes, columbia);
    }
  }
}
