/** The tree that mirrors a dataset's description. The fields that are set while it is built and not by the passes
    modelled here are constants. */
module Tree {
  datatype NodeType = Dataset | Sequence | Structure | Grid | Atomic | Dimension

  datatype CDFdim = CDFdim(clone: bool, declsize: nat, declsize0: nat, basedim: CDFnode?, arraynode: CDFnode?)

  const NO_DIM := CDFdim(false, 0, 0, null, null)

  class CDFnode {
    const ocname: string
    const nctype: NodeType
    const etype: nat
    const dim: CDFdim
    const dimset0: seq<CDFnode>
    const stringdim: CDFnode?
    const seqdim: CDFnode?
    const nc_virtual: bool
    const pattern: CDFnode?
    var container: CDFnode?
    var subnodes: seq<CDFnode>
    var usesequence: bool
    var sequence: CDFnode?
    var dimsetplus: seq<CDFnode>
    var dimsetall: seq<CDFnode>
    var basenode: CDFnode?

    /** A node without dimensions or subnodes, as made while a tree is rearranged. */
    constructor (ocname: string, nctype: NodeType, dim: CDFdim, nc_virtual: bool, pattern: CDFnode?,
                 container: CDFnode?)
      ensures this.ocname == ocname && this.nctype == nctype && this.dim == dim
      ensures this.nc_virtual == nc_virtual && this.pattern == pattern && this.container == container
      ensures dimset0 == [] && subnodes == [] && stringdim == null && seqdim == null
      ensures !usesequence && sequence == null && dimsetplus == [] && dimsetall == [] && basenode == null
    {
      this.ocname, this.nctype, this.etype, this.dim := ocname, nctype, 0, dim;
      this.nc_virtual, this.pattern, this.container := nc_virtual, pattern, container;
      dimset0, subnodes, stringdim, seqdim := [], [], null, null;
      usesequence, sequence, dimsetplus, dimsetall, basenode := false, null, [], [], null;
    }
  }

  /** What belongs to the whole tree: the list of its nodes, and whether its grids have been repaired. */
  class CDFtree {
    var nodes: seq<CDFnode>
    var restructed: bool

    constructor (nodes: seq<CDFnode>)
      ensures this.nodes == nodes && !restructed
    {
      this.nodes, restructed := nodes, false;
    }
  }

  // ----- The shape of a tree, as a value

  datatype Shape = Shape(node: CDFnode, kids: seq<Shape>)

  ghost function NodesUpTo(sh: Shape, n: nat): set<CDFnode>
    requires n <= |sh.kids|
    decreases sh, n
  {
    if n == 0 then {} else NodesUpTo(sh, n - 1) + Nodes(sh.kids[n - 1])
  }

  ghost function Nodes(sh: Shape): set<CDFnode>
    decreases sh, |sh.kids| + 1
  {
    {sh.node} + NodesUpTo(sh, |sh.kids|)
  }

  lemma {:induction false} KidUpTo(sh: Shape, n: nat, k: nat)
    requires k < n <= |sh.kids|
    ensures Nodes(sh.kids[k]) <= NodesUpTo(sh, n)
  {
    if k < n - 1 {
      KidUpTo(sh, n - 1, k);
    }
  }

  lemma {:induction false} KidNodes(sh: Shape, k: nat)
    requires k < |sh.kids|
    ensures Nodes(sh.kids[k]) <= Nodes(sh) && sh.kids[k].node in Nodes(sh)
  {
    KidUpTo(sh, |sh.kids|, k);
  }

  lemma {:induction false} KidOf(sh: Shape, n: nat, x: CDFnode) returns (k: nat)
    requires n <= |sh.kids| && x in NodesUpTo(sh, n)
    ensures k < n && x in Nodes(sh.kids[k])
  {
    if x in Nodes(sh.kids[n - 1]) {
      k := n - 1;
    } else {
      k := KidOf(sh, n - 1, x);
    }
  }

  lemma {:induction false} UpToAllocated(sh: Shape, n: nat)
    requires n <= |sh.kids|
    ensures forall x <- NodesUpTo(sh, n) :: allocated(x)
    decreases sh, n
  {
    if n > 0 {
      UpToAllocated(sh, n - 1);
      NodesAllocated(sh.kids[n - 1]);
    }
  }

  /** A shape that is at hand holds only nodes that exist. */
  lemma {:induction false} NodesAllocated(sh: Shape)
    ensures forall x <- Nodes(sh) :: allocated(x)
    decreases sh, |sh.kids| + 1
  {
    UpToAllocated(sh, |sh.kids|);
  }

  /** The shape is that of the nodes in the heap: children in order, and parent links that match them. */
  ghost predicate Linked(sh: Shape)
    reads Nodes(sh)`subnodes, Nodes(sh)`container
  {
    && |sh.node.subnodes| == |sh.kids|
    && forall k :: 0 <= k < |sh.kids| ==>
         (KidNodes(sh, k);
          && sh.node.subnodes[k] == sh.kids[k].node && sh.kids[k].node.container == sh.node
          && Linked(sh.kids[k]))
  }

  /** No node occurs twice. */
  ghost predicate Distinct(sh: Shape)
  {
    && (forall k :: 0 <= k < |sh.kids| ==> sh.node !in Nodes(sh.kids[k]) && Distinct(sh.kids[k]))
    && (forall i, j :: 0 <= i < j < |sh.kids| ==> Nodes(sh.kids[i]) !! Nodes(sh.kids[j]))
  }

  lemma {:induction false} KidsApart(sh: Shape, i: nat, j: nat)
    requires Distinct(sh) && i < |sh.kids| && j < |sh.kids| && i != j
    ensures Nodes(sh.kids[i]) !! Nodes(sh.kids[j])
  {
  }

  lemma {:induction false} NotBelow(sh: Shape)
    requires Distinct(sh)
    ensures sh.node !in NodesUpTo(sh, |sh.kids|)
  {
    if sh.node in NodesUpTo(sh, |sh.kids|) {
      var k := KidOf(sh, |sh.kids|, sh.node);
    }
  }

  // ----- Places in a tree

  /** A place is given by the child indices on the way to it. */
  predicate IsPath(sh: Shape, path: seq<nat>)
    decreases |path|
  {
    path == [] || (path[0] < |sh.kids| && IsPath(sh.kids[path[0]], path[1..]))
  }

  function At(sh: Shape, path: seq<nat>): Shape
    requires IsPath(sh, path)
    decreases |path|
  {
    if path == [] then sh else At(sh.kids[path[0]], path[1..])
  }

  /** The nodes on the way to a place, from the root down to the node there. */
  function Along(sh: Shape, path: seq<nat>): (r: seq<CDFnode>)
    requires IsPath(sh, path)
    ensures |r| == |path| + 1 && r[0] == sh.node
    decreases |path|
  {
    if path == [] then [sh.node] else [sh.node] + Along(sh.kids[path[0]], path[1..])
  }

  lemma {:induction false} AlongEnds(sh: Shape, path: seq<nat>)
    requires IsPath(sh, path)
    ensures Along(sh, path)[|path|] == At(sh, path).node
    ensures At(sh, path).node in Nodes(sh)
    decreases |path|
  {
    if path != [] {
      AlongEnds(sh.kids[path[0]], path[1..]);
      KidNodes(sh, path[0]);
    }
  }

  /** Different places hold different nodes. */
  lemma {:induction false} PlacesDiffer(sh: Shape, p: seq<nat>, q: seq<nat>)
    requires Distinct(sh) && IsPath(sh, p) && IsPath(sh, q) && p != q
    ensures At(sh, p).node != At(sh, q).node
    decreases |p| + |q|
  {
    if p == [] {
      AlongEnds(sh.kids[q[0]], q[1..]);
    } else if q == [] {
      AlongEnds(sh.kids[p[0]], p[1..]);
    } else if p[0] == q[0] {
      assert p == [p[0]] + p[1..] && q == [q[0]] + q[1..];
      PlacesDiffer(sh.kids[p[0]], p[1..], q[1..]);
    } else {
      AlongEnds(sh.kids[p[0]], p[1..]);
      AlongEnds(sh.kids[q[0]], q[1..]);
    }
  }
}
