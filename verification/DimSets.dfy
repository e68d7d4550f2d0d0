/** Dimension sets: the dimensions of each node, and those that it inherits as clones of its own. */
module DimSets {
  import opened Tree

  // ----- The sets, as values

  /** The node's own dimensions: the declared ones, then the string and sequence pseudo-dimensions. */
  function Plus(node: CDFnode): seq<CDFnode>
  {
    node.dimset0 + (if node.stringdim != null then [node.stringdim] else [])
    + (if node.seqdim != null then [node.seqdim] else [])
  }

  /** The set holds the declared dimensions in order, and behind them the string and the sequence dimension, of those
      that there are, in this order. */
  predicate HasOwn(dims: seq<CDFnode>, declared: seq<CDFnode>, stringdim: CDFnode?, seqdim: CDFnode?)
  {
    && |declared| <= |dims| && (forall i :: 0 <= i < |declared| ==> dims[i] == declared[i])
    && if stringdim == null && seqdim == null then |dims| == |declared|
       else if seqdim == null then |dims| == |declared| + 1 && dims[|declared|] == stringdim
       else if stringdim == null then |dims| == |declared| + 1 && dims[|declared|] == seqdim
       else |dims| == |declared| + 2 && dims[|declared|] == stringdim && dims[|declared| + 1] == seqdim
  }

  function Sizes(dims: seq<CDFnode>): (r: seq<nat>)
    ensures |r| == |dims|
  {
    if dims == [] then [] else [dims[0].dim.declsize] + Sizes(dims[1..])
  }

  lemma {:induction false} SizesAgree(a: seq<CDFnode>, b: seq<CDFnode>)
    requires |a| == |b| && forall i :: 0 <= i < |a| ==> a[i].dim.declsize == b[i].dim.declsize
    ensures Sizes(a) == Sizes(b)
  {
    if a != [] {
      SizesAgree(a[1..], b[1..]);
    }
  }

  lemma {:induction false} SizesConcat(a: seq<CDFnode>, b: seq<CDFnode>)
    ensures Sizes(a + b) == Sizes(a) + Sizes(b)
  {
    if a == [] {
      assert a + b == b;
    } else {
      assert (a + b)[1..] == a[1..] + b;
      SizesConcat(a[1..], b);
    }
  }

  /** The sizes of the own dimensions of all the nodes, in order. */
  function PathSizes(nodes: seq<CDFnode>): seq<nat>
  {
    if nodes == [] then [] else Sizes(Plus(nodes[0])) + PathSizes(nodes[1..])
  }

  lemma {:induction false} PathSizesSnoc(nodes: seq<CDFnode>, x: CDFnode)
    ensures PathSizes(nodes + [x]) == PathSizes(nodes) + Sizes(Plus(x))
  {
    if nodes == [] {
      assert (nodes + [x])[1..] == [];
    } else {
      assert (nodes + [x])[1..] == nodes[1..] + [x];
      PathSizesSnoc(nodes[1..], x);
    }
  }

  /** A dimension cloned for the node. */
  predicate IsCloneFor(dim: CDFnode, node: CDFnode)
  {
    dim.nctype == Dimension && dim.dim.clone && dim.dim.arraynode == node
  }

  predicate AreClonesFor(dims: seq<CDFnode>, node: CDFnode)
  {
    && (forall i :: 0 <= i < |dims| ==> IsCloneFor(dims[i], node))
    && (forall i, j :: 0 <= i < j < |dims| ==> dims[i] != dims[j])
  }

  predicate AllIn(dims: seq<CDFnode>, made: seq<CDFnode>)
  {
    forall d <- dims :: d in made
  }

  // ----- The state of a tree

  ghost predicate Undefined(sh: Shape)
    reads Nodes(sh)`dimsetplus, Nodes(sh)`dimsetall
  {
    && sh.node.dimsetplus == [] && sh.node.dimsetall == []
    && forall k :: 0 <= k < |sh.kids| ==> (KidNodes(sh, k); Undefined(sh.kids[k]))
  }

  /** The node has its own dimensions last, and before them clones, taken from made, of dimensions of the inherited
      sizes. */
  ghost predicate NodeDefined(node: CDFnode, inherited: seq<nat>, made: seq<CDFnode>)
    reads node`dimsetplus, node`dimsetall
  {
    && node.dimsetplus == Plus(node)
    && |inherited| <= |node.dimsetall|
    && node.dimsetall[|inherited|..] == Plus(node)
    && Sizes(node.dimsetall) == inherited + Sizes(Plus(node))
    && AreClonesFor(node.dimsetall[..|inherited|], node) && AllIn(node.dimsetall[..|inherited|], made)
  }

  ghost predicate Defined(sh: Shape, inherited: seq<nat>, made: seq<CDFnode>)
    reads Nodes(sh)`dimsetplus, Nodes(sh)`dimsetall
  {
    && NodeDefined(sh.node, inherited, made)
    && forall k :: 0 <= k < |sh.kids| ==>
         (KidNodes(sh, k);
          sh.kids[k].node.nctype == Dimension || Defined(sh.kids[k], inherited + Sizes(Plus(sh.node)), made))
  }

  lemma {:induction false} DefinedMonotone(sh: Shape, inherited: seq<nat>, made: seq<CDFnode>, more: seq<CDFnode>)
    requires Defined(sh, inherited, made) && forall d <- made :: d in more
    ensures Defined(sh, inherited, more)
  {
    forall k | 0 <= k < |sh.kids| && sh.kids[k].node.nctype != Dimension
      ensures Defined(sh.kids[k], inherited + Sizes(Plus(sh.node)), more)
    {
      DefinedMonotone(sh.kids[k], inherited + Sizes(Plus(sh.node)), made, more);
    }
  }

  // ----- The passes

  method CloneDim(dim: CDFnode, variable: CDFnode, tree: CDFtree) returns (clone: CDFnode)
    modifies tree
    ensures fresh(clone) && IsCloneFor(clone, variable)
    ensures clone.ocname == dim.ocname && clone.container == dim.container
    ensures clone.nctype == Dimension && clone.dim.clone && clone.dim.arraynode == variable
    ensures clone.dim.declsize == dim.dim.declsize && clone.dim.declsize0 == dim.dim.declsize0
    ensures clone.dim.basedim == dim.dim.basedim
    ensures tree.nodes == old(tree.nodes) + [clone]
  {
    var d := CDFdim(true, dim.dim.declsize, dim.dim.declsize0, dim.dim.basedim, variable);
    clone := new CDFnode(dim.ocname, Dimension, d, false, null, dim.container);
    tree.nodes := tree.nodes + [clone];
  }

  method CloneDimset(dimset: seq<CDFnode>, variable: CDFnode, tree: CDFtree) returns (result: seq<CDFnode>)
    modifies tree
    ensures fresh(result) && AreClonesFor(result, variable) && Sizes(result) == Sizes(dimset)
    ensures |result| == |dimset|
    ensures forall k :: 0 <= k < |dimset| ==>
              && result[k].nctype == Dimension && result[k].dim.clone && result[k].dim.arraynode == variable
              && result[k].dim.declsize == dimset[k].dim.declsize && result[k].ocname == dimset[k].ocname
    ensures tree.nodes == old(tree.nodes) + result
  {
    result := [];
    var i := 0;
    while i < |dimset|
      invariant 0 <= i <= |dimset| && |result| == i
      invariant fresh(result) && AreClonesFor(result, variable)
      invariant forall k :: 0 <= k < i ==>
                  result[k].dim.declsize == dimset[k].dim.declsize && result[k].ocname == dimset[k].ocname
      invariant tree.nodes == old(tree.nodes) + result
    {
      var clone := CloneDim(dimset[i], variable, tree);
      result := result + [clone];
      i := i + 1;
    }
    SizesAgree(result, dimset);
  }

  /** The declared dimensions, then the string dimension if there is one, then the sequence dimension if there is. */
  method DefineDimsetPlus(node: CDFnode)
    modifies node`dimsetplus
    ensures node.dimsetplus == Plus(node)
    ensures HasOwn(node.dimsetplus, node.dimset0, node.stringdim, node.seqdim)
  {
    var dimset := node.dimset0;
    if node.stringdim != null {
      dimset := dimset + [node.stringdim];
    }
    if node.seqdim != null {
      dimset := dimset + [node.seqdim];
    }
    node.dimsetplus := dimset;
  }

  /** The sizes that a node below the container inherits. */
  ghost function Inherited(container: CDFnode?): seq<nat>
    reads (if container == null then {} else {container})`dimsetall
  {
    if container == null then [] else Sizes(container.dimsetall)
  }

  /** Clones followed by the own dimensions are what a node should have. */
  lemma {:induction false} ClonesThenPlus(node: CDFnode, inherited: seq<nat>, made: seq<CDFnode>)
    requires Sizes(made) == inherited && AreClonesFor(made, node)
    requires node.dimsetplus == Plus(node) && node.dimsetall == made + node.dimsetplus
    ensures NodeDefined(node, inherited, made)
  {
    SizesConcat(made, node.dimsetplus);
    assert node.dimsetall[..|made|] == made && node.dimsetall[|made|..] == node.dimsetplus;
  }

  method DefineDimsetAll(node: CDFnode, tree: CDFtree) returns (ghost made: seq<CDFnode>)
    requires node.dimsetplus == Plus(node)
    modifies node`dimsetall, tree
    ensures NodeDefined(node, old(Inherited(node.container)), made)
    ensures fresh(made) && tree.nodes == old(tree.nodes) + made
  {
    var dimsetall := [];
    if node.container != null {
      dimsetall := CloneDimset(node.container.dimsetall, node, tree);
    }
    made := dimsetall;
    var i := 0;
    while i < |node.dimsetplus|
      invariant 0 <= i <= |node.dimsetplus|
      invariant dimsetall == made + node.dimsetplus[..i]
    {
      dimsetall := dimsetall + [node.dimsetplus[i]];
      i := i + 1;
    }
    node.dimsetall := dimsetall;
    ClonesThenPlus(node, old(Inherited(node.container)), made);
  }

  /** The children below i have their sets, the others do not. */
  ghost predicate DefinedUpTo(sh: Shape, inherited: seq<nat>, made: seq<CDFnode>, i: nat)
    requires i <= |sh.kids|
    reads NodesUpTo(sh, |sh.kids|)`dimsetplus, NodesUpTo(sh, |sh.kids|)`dimsetall
  {
    && (forall k :: 0 <= k < i && sh.kids[k].node.nctype != Dimension ==>
          (KidUpTo(sh, |sh.kids|, k); Defined(sh.kids[k], inherited, made)))
    && (forall k :: i <= k < |sh.kids| ==> (KidUpTo(sh, |sh.kids|, k); Undefined(sh.kids[k])))
  }

  lemma {:induction false} UpToMonotone(sh: Shape, inherited: seq<nat>, made: seq<CDFnode>, more: seq<CDFnode>, i: nat)
    requires i <= |sh.kids| && DefinedUpTo(sh, inherited, made, i) && forall d <- made :: d in more
    ensures DefinedUpTo(sh, inherited, more, i)
  {
    forall k | 0 <= k < i && sh.kids[k].node.nctype != Dimension
      ensures Defined(sh.kids[k], inherited, more)
    {
      DefinedMonotone(sh.kids[k], inherited, made, more);
    }
  }

  method DefineKid(node: CDFnode, tree: CDFtree, i: nat, ghost sh: Shape, ghost made: seq<CDFnode>)
    returns (ghost more: seq<CDFnode>)
    requires sh.node == node && Linked(sh) && Distinct(sh) && i < |sh.kids|
    requires DefinedUpTo(sh, Sizes(node.dimsetall), made, i)
    requires node.subnodes[i].nctype != Dimension
    modifies NodesUpTo(sh, |sh.kids|)`dimsetplus, NodesUpTo(sh, |sh.kids|)`dimsetall, tree
    ensures fresh(more) && tree.nodes == old(tree.nodes) + more
    ensures DefinedUpTo(sh, old(Sizes(node.dimsetall)), made + more, i + 1)
    decreases sh, 0
  {
    KidUpTo(sh, |sh.kids|, i);
    forall k | 0 <= k < |sh.kids|
      ensures forall x <- Nodes(sh.kids[k]) :: allocated(x)
      ensures k != i ==> Nodes(sh.kids[k]) !! Nodes(sh.kids[i])
    {
      NodesAllocated(sh.kids[k]);
    }
    ghost var sizes := Sizes(node.dimsetall);
    more := DefineDimsetsR(node.subnodes[i], tree, sh.kids[i]);
    DefinedMonotone(sh.kids[i], sizes, more, made + more);
    forall k | 0 <= k < i && sh.kids[k].node.nctype != Dimension
      ensures Defined(sh.kids[k], sizes, made + more)
    {
      assert old(Defined(sh.kids[k], sizes, made));
      DefinedMonotone(sh.kids[k], sizes, made, made + more);
    }
    forall k | i < k < |sh.kids|
      ensures Undefined(sh.kids[k])
    {
      assert old(Undefined(sh.kids[k]));
    }
  }

  method DefineKids(node: CDFnode, tree: CDFtree, ghost sh: Shape) returns (ghost made: seq<CDFnode>)
    requires sh.node == node && Linked(sh) && Distinct(sh)
    requires DefinedUpTo(sh, Sizes(node.dimsetall), [], 0)
    modifies NodesUpTo(sh, |sh.kids|)`dimsetplus, NodesUpTo(sh, |sh.kids|)`dimsetall, tree
    ensures fresh(made) && tree.nodes == old(tree.nodes) + made
    ensures DefinedUpTo(sh, old(Sizes(node.dimsetall)), made, |sh.kids|)
    decreases sh, 1
  {
    NodesAllocated(sh);
    NotBelow(sh);
    made := [];
    var i := 0;
    while i < |node.subnodes|
      invariant 0 <= i <= |node.subnodes| == |sh.kids|
      invariant fresh(made) && tree.nodes == old(tree.nodes) + made
      invariant DefinedUpTo(sh, Sizes(node.dimsetall), made, i)
    {
      assert Linked(sh);
      if node.subnodes[i].nctype != Dimension {
        ghost var more := DefineKid(node, tree, i, sh, made);
        made := made + more;
      }
      i := i + 1;
    }
  }

  method DefineNode(node: CDFnode, tree: CDFtree) returns (ghost made: seq<CDFnode>)
    requires node.container != node
    modifies node`dimsetplus, node`dimsetall, tree
    ensures NodeDefined(node, old(Inherited(node.container)), made)
    ensures fresh(made) && tree.nodes == old(tree.nodes) + made
  {
    DefineDimsetPlus(node);
    made := DefineDimsetAll(node, tree);
  }

  /** Define the sets of a node and of everything below it. */
  method DefineDimsetsR(node: CDFnode, tree: CDFtree, ghost sh: Shape) returns (ghost made: seq<CDFnode>)
    requires sh.node == node && Linked(sh) && Distinct(sh) && Undefined(sh)
    requires node.container == null || node.container !in Nodes(sh)
    modifies Nodes(sh)`dimsetplus, Nodes(sh)`dimsetall, tree
    ensures Defined(sh, old(Inherited(node.container)), made)
    ensures fresh(made) && tree.nodes == old(tree.nodes) + made
    decreases sh, 2
  {
    NotBelow(sh);
    NodesAllocated(sh);
    UpToAllocated(sh, |sh.kids|);
    ghost var inherited := Inherited(node.container);
    ghost var own := DefineNode(node, tree);
    assert DefinedUpTo(sh, Sizes(node.dimsetall), [], 0) by {
      assert old(DefinedUpTo(sh, [], [], 0));
    }
    assert Linked(sh);
    ghost var more := DefineKids(node, tree, sh);
    made := own + more;
    UpToMonotone(sh, inherited + Sizes(Plus(node)), more, made, |sh.kids|);
  }

  // ----- What the sets hold

  /** A node at a place has, before its own dimensions, clones that belong to it, of the sizes of the own dimensions of
      the nodes above it, from the root down. */
  lemma {:induction false} DefinedAt(sh: Shape, inherited: seq<nat>, made: seq<CDFnode>, path: seq<nat>)
    requires Defined(sh, inherited, made) && IsPath(sh, path)
    requires forall k :: 0 < k <= |path| ==> Along(sh, path)[k].nctype != Dimension
    ensures NodeDefined(At(sh, path).node, inherited + PathSizes(Along(sh, path)[..|path|]), made)
    decreases |path|
  {
    if path == [] {
      assert inherited + PathSizes([]) == inherited;
    } else {
      var kid, rest, own := sh.kids[path[0]], path[1..], Sizes(Plus(sh.node));
      var above := Along(sh, path)[..|path|];
      var below := Along(kid, rest);
      assert Along(sh, path) == [sh.node] + below;
      forall k | 0 <= k <= |rest|
        ensures below[k].nctype != Dimension
      {
        assert below[k] == Along(sh, path)[k + 1];
      }
      DefinedAt(kid, inherited + own, made, rest);
      assert above[0] == sh.node && above[1..] == below[..|rest|];
      assert inherited + own + PathSizes(above[1..]) == inherited + (own + PathSizes(above[1..]));
    }
  }

  /** At every place the node's own set holds its declared dimensions, its string and its sequence dimension, and its
      whole set ends with these. */
  lemma {:induction false} OwnAt(sh: Shape, made: seq<CDFnode>, path: seq<nat>)
    requires Defined(sh, [], made) && IsPath(sh, path)
    requires forall k :: 0 < k <= |path| ==> Along(sh, path)[k].nctype != Dimension
    ensures var n := At(sh, path).node;
            && HasOwn(n.dimsetplus, n.dimset0, n.stringdim, n.seqdim)
            && |n.dimsetplus| <= |n.dimsetall| && n.dimsetall[|n.dimsetall| - |n.dimsetplus|..] == n.dimsetplus
  {
    DefinedAt(sh, [], made, path);
  }

  /** The sizes of a node's whole set are the own sizes of all the nodes from the root down to it, in order. */
  lemma {:induction false} SizesAlongPath(sh: Shape, made: seq<CDFnode>, path: seq<nat>)
    requires Defined(sh, [], made) && IsPath(sh, path)
    requires forall k :: 0 < k <= |path| ==> Along(sh, path)[k].nctype != Dimension
    ensures Sizes(At(sh, path).node.dimsetall) == PathSizes(Along(sh, path))
  {
    var nodes := Along(sh, path);
    var above := PathSizes(nodes[..|path|]);
    DefinedAt(sh, [], made, path);
    AlongEnds(sh, path);
    assert [] + above == above;
    PathSizesSnoc(nodes[..|path|], nodes[|path|]);
    assert nodes[..|path|] + [nodes[|path|]] == nodes;
  }

  lemma {:induction false} InheritedIsClone(sh: Shape, made: seq<CDFnode>, p: seq<nat>, i: nat)
    requires Defined(sh, [], made) && IsPath(sh, p)
    requires forall k :: 0 < k <= |p| ==> Along(sh, p)[k].nctype != Dimension
    requires i < |At(sh, p).node.dimsetall| - |Plus(At(sh, p).node)|
    ensures IsCloneFor(At(sh, p).node.dimsetall[i], At(sh, p).node) && At(sh, p).node.dimsetall[i] in made
  {
    DefinedAt(sh, [], made, p);
    var all, above := At(sh, p).node.dimsetall, [] + PathSizes(Along(sh, p)[..|p|]);
    var d := all[..|above|][i];
    assert IsCloneFor(d, At(sh, p).node) && d in all[..|above|];
  }

  lemma {:induction false} InheritedDiffer(sh: Shape, made: seq<CDFnode>, p: seq<nat>, i: nat, j: nat)
    requires Defined(sh, [], made) && IsPath(sh, p) && i < j
    requires forall k :: 0 < k <= |p| ==> Along(sh, p)[k].nctype != Dimension
    requires j < |At(sh, p).node.dimsetall| - |Plus(At(sh, p).node)|
    ensures At(sh, p).node.dimsetall[i] != At(sh, p).node.dimsetall[j]
  {
    DefinedAt(sh, [], made, p);
    var all, above := At(sh, p).node.dimsetall, [] + PathSizes(Along(sh, p)[..|p|]);
    assert all[..|above|][i] != all[..|above|][j];
  }

  /** No dimension object is inherited by two nodes, or twice by one. */
  lemma {:induction false} NoSharing(sh: Shape, made: seq<CDFnode>, p: seq<nat>, q: seq<nat>, i: nat, j: nat)
    requires Distinct(sh) && Defined(sh, [], made) && IsPath(sh, p) && IsPath(sh, q)
    requires forall k :: 0 < k <= |p| ==> Along(sh, p)[k].nctype != Dimension
    requires forall k :: 0 < k <= |q| ==> Along(sh, q)[k].nctype != Dimension
    requires i < |At(sh, p).node.dimsetall| - |Plus(At(sh, p).node)|
    requires j < |At(sh, q).node.dimsetall| - |Plus(At(sh, q).node)|
    ensures At(sh, p).node.dimsetall[i] == At(sh, q).node.dimsetall[j] <==> p == q && i == j
    ensures At(sh, p).node.dimsetall[i] in made
  {
    InheritedIsClone(sh, made, p, i);
    InheritedIsClone(sh, made, q, j);
    if p != q {
      PlacesDiffer(sh, p, q);
    } else if i < j {
      InheritedDiffer(sh, made, p, i, j);
    } else if j < i {
      InheritedDiffer(sh, made, p, j, i);
    }
  }
}
