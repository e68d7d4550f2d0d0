/** Trees that agree node by node, told in the fields of the nodes: they match as they stand. */
module Alike {
  import opened Wrappers
  import opened Tree
  import opened Restruct

  /** A grid counts as a structure. */
  function Kind(t: NodeType): NodeType
  {
    match t
    case Grid => Structure
    case _ => t
  }

  /** The nodes have the same name, number of dimensions and kind, and if they are atomic the same type. */
  predicate AlikeNodes(a: CDFnode, b: CDFnode)
  {
    && a.ocname == b.ocname && |a.dimset0| == |b.dimset0| && Kind(a.nctype) == Kind(b.nctype)
    && (a.nctype == Atomic ==> a.etype == b.etype)
  }

  /** The trees agree place by place, and siblings have different names. */
  predicate AlikeTrees(sh: Shape, psh: Shape)
  {
    && AlikeNodes(sh.node, psh.node) && |sh.kids| == |psh.kids|
    && (forall i, j :: 0 <= i < j < |psh.kids| ==> psh.kids[i].node.ocname != psh.kids[j].node.ocname)
    && forall k :: 0 <= k < |sh.kids| ==> AlikeTrees(sh.kids[k], psh.kids[k])
  }

  /** No node below the top is a dataset. */
  predicate NoInnerDataset(sh: Shape)
  {
    forall k :: 0 <= k < |sh.kids| ==> sh.kids[k].node.nctype != Dataset && NoInnerDataset(sh.kids[k])
  }

  lemma {:induction false} PlainHasNone(sh: Shape)
    requires PlainTree(sh)
    ensures NoInnerDataset(sh)
  {
    forall k | 0 <= k < |sh.kids|
      ensures NoInnerDataset(sh.kids[k])
    {
      PlainHasNone(sh.kids[k]);
    }
  }

  lemma {:induction false} AlikeMatch(a: CDFnode, b: CDFnode, columbia: bool)
    requires AlikeNodes(a, b)
    ensures SimpleNodeMatch(a, b, columbia) && SimpleNodeMatch(b, a, columbia)
  {
  }

  /** Nodes match iff they are alike, but for the columbia root. */
  lemma {:induction false} MatchIffAlike(a: CDFnode, b: CDFnode, columbia: bool)
    ensures SimpleNodeMatch(a, b, columbia) <==> AlikeNodes(a, b) || (columbia && a.nctype == Dataset)
  {
  }

  lemma {:induction false} OwnNamesake(sh: Shape, psh: Shape, k: nat)
    requires AlikeTrees(sh, psh) && k < |sh.kids|
    ensures FirstNamed(psh, sh.kids[k].node.ocname, 0) == k
  {
    assert AlikeTrees(sh.kids[k], psh.kids[k]);
  }

  /** A tree that agrees with the pattern needs no repair. */
  lemma {:induction false} AlikePlan(sh: Shape, n: nat, psh: Shape, columbia: bool)
    requires AlikeTrees(sh, psh) && n <= |sh.kids|
    ensures PlanUpTo(sh, n, psh, columbia) == Some([])
    decreases sh, n
  {
    if n > 0 {
      var k := n - 1;
      AlikePlan(sh, k, psh, columbia);
      OwnNamesake(sh, psh, k);
      AlikeMatch(sh.kids[k].node, psh.kids[k].node, columbia);
      AlikePlan(sh.kids[k], |sh.kids[k].kids|, psh.kids[k], columbia);
      var none: Repairs := [];
      assert PlanKid(sh.kids[k], psh, columbia) == Some(none) && none + none == none;
    }
  }

  lemma {:induction false} AlikePath(sh: Shape, psh: Shape, path: seq<nat>)
    requires AlikeTrees(sh, psh) && IsPath(sh, path)
    ensures IsPath(psh, path) && AlikeTrees(At(sh, path), At(psh, path))
    decreases |path|
  {
    if path != [] {
      AlikePath(sh.kids[path[0]], psh.kids[path[0]], path[1..]);
    }
  }
}
