/** Which sequences are usable: the walk over a fresh tree, and what it decides. */
module Sequences {
  import opened Wrappers
  import opened Tree

  /** Nothing below has been marked. */
  ghost predicate Fresh(sh: Shape)
    reads Nodes(sh)`usesequence, Nodes(sh)`sequence
  {
    && !sh.node.usesequence && sh.node.sequence == null
    && forall k :: 0 <= k < |sh.kids| ==> (KidNodes(sh, k); Fresh(sh.kids[k]))
  }

  /** What the walk of a subtree reports, below a sequence or not. */
  predicate Usable(sh: Shape, vars: seq<CDFnode>, below: bool)
  {
    if !below && sh.node.dimset0 != [] then false
    else if sh.node.nctype == Sequence then !below && exists k :: 0 <= k < |sh.kids| && Usable(sh.kids[k], vars, true)
    else sh.node in vars || exists k :: 0 <= k < |sh.kids| && Usable(sh.kids[k], vars, below)
  }

  /** The marks that the walk of a subtree leaves, below the sequence top. */
  ghost predicate Marked(sh: Shape, vars: seq<CDFnode>, top: CDFnode?)
    reads Nodes(sh)`usesequence, Nodes(sh)`sequence
  {
    if top == null && sh.node.dimset0 != [] then Fresh(sh)
    else if sh.node.nctype == Sequence then
      && sh.node.usesequence == Usable(sh, vars, top != null) && sh.node.sequence == null
      && forall k :: 0 <= k < |sh.kids| ==> (KidNodes(sh, k); Marked(sh.kids[k], vars, sh.node))
    else if sh.node in vars then
      && !sh.node.usesequence && sh.node.sequence == top
      && forall k :: 0 <= k < |sh.kids| ==> (KidNodes(sh, k); Fresh(sh.kids[k]))
    else
      && !sh.node.usesequence && sh.node.sequence == null
      && forall k :: 0 <= k < |sh.kids| ==> (KidNodes(sh, k); Marked(sh.kids[k], vars, top))
  }

  /** The children below i have been walked, the others have not. */
  ghost predicate MarkedUpTo(sh: Shape, vars: seq<CDFnode>, top: CDFnode?, i: nat)
    requires i <= |sh.kids|
    reads NodesUpTo(sh, |sh.kids|)`usesequence, NodesUpTo(sh, |sh.kids|)`sequence
  {
    && (forall k :: 0 <= k < i ==> (KidUpTo(sh, |sh.kids|, k); Marked(sh.kids[k], vars, top)))
    && (forall k :: i <= k < |sh.kids| ==> (KidUpTo(sh, |sh.kids|, k); Fresh(sh.kids[k])))
  }

  /** Walk one child of a node. */
  method CheckKid(node: CDFnode, vars: seq<CDFnode>, topseq: CDFnode?, i: nat, ghost sh: Shape) returns (err: ErrCode)
    requires sh.node == node && Linked(sh) && Distinct(sh) && i < |sh.kids|
    requires MarkedUpTo(sh, vars, topseq, i)
    modifies NodesUpTo(sh, |sh.kids|)`usesequence, NodesUpTo(sh, |sh.kids|)`sequence
    ensures err == if Usable(sh.kids[i], vars, topseq != null) then NC_NOERR else NC_EINVAL
    ensures MarkedUpTo(sh, vars, topseq, i + 1)
    decreases sh, 0
  {
    KidUpTo(sh, |sh.kids|, i);
    forall k | 0 <= k < |sh.kids|
      ensures forall x <- Nodes(sh.kids[k]) :: allocated(x)
      ensures k != i ==> Nodes(sh.kids[k]) !! Nodes(sh.kids[i])
    {
      NodesAllocated(sh.kids[k]);
    }
    err := SequenceCheckR(node.subnodes[i], vars, topseq, sh.kids[i]);
    forall k | 0 <= k < i
      ensures Marked(sh.kids[k], vars, topseq)
    {
      assert old(Marked(sh.kids[k], vars, topseq));
    }
    forall k | i < k < |sh.kids|
      ensures Fresh(sh.kids[k])
    {
      assert old(Fresh(sh.kids[k]));
    }
  }

  /** Walk the children of a node. */
  method CheckKids(node: CDFnode, vars: seq<CDFnode>, topseq: CDFnode?, ghost sh: Shape) returns (ok: bool)
    requires sh.node == node && Linked(sh) && Distinct(sh) && MarkedUpTo(sh, vars, topseq, 0)
    modifies NodesUpTo(sh, |sh.kids|)`usesequence, NodesUpTo(sh, |sh.kids|)`sequence
    ensures ok <==> exists k :: 0 <= k < |sh.kids| && Usable(sh.kids[k], vars, topseq != null)
    ensures MarkedUpTo(sh, vars, topseq, |sh.kids|)
    decreases sh, 1
  {
    ok := false;
    NodesAllocated(sh);
    var i := 0;
    while i < |node.subnodes|
      invariant 0 <= i <= |node.subnodes| == |sh.kids|
      invariant ok <==> exists k :: 0 <= k < i && Usable(sh.kids[k], vars, topseq != null)
      invariant MarkedUpTo(sh, vars, topseq, i)
    {
      assert Linked(sh);
      var err := CheckKid(node, vars, topseq, i, sh);
      if err == NC_NOERR {
        ok := true;
      }
      i := i + 1;
    }
  }

  /** Walk a subtree below the sequence topseq, if any. */
  method SequenceCheckR(node: CDFnode, vars: seq<CDFnode>, topseq: CDFnode?, ghost sh: Shape) returns (err: ErrCode)
    requires sh.node == node && Linked(sh) && Distinct(sh) && Fresh(sh)
    modifies Nodes(sh)`usesequence, Nodes(sh)`sequence
    ensures err == if Usable(sh, vars, topseq != null) then NC_NOERR else NC_EINVAL
    ensures Marked(sh, vars, topseq)
    decreases sh, 2
  {
    NotBelow(sh);
    if topseq == null && |node.dimset0| > 0 {
      err := NC_EINVAL;
    } else if node.nctype == Sequence {
      var ok := CheckKids(node, vars, node, sh);
      if topseq == null && ok {
        err := NC_NOERR;
        node.usesequence := true;
      } else {
        node.usesequence := false;
        err := NC_EINVAL;
      }
    } else if node in vars {
      node.sequence := topseq;
      err := NC_NOERR;
    } else {
      var ok := CheckKids(node, vars, topseq, sh);
      err := if ok then NC_NOERR else NC_EINVAL;
    }
  }

  // ----- What the marks mean

  /** A place below, at a variable, with no sequence on the way to it. */
  ghost predicate ReachesVar(sh: Shape, vars: seq<CDFnode>, q: seq<nat>)
  {
    IsPath(sh, q) && At(sh, q).node in vars && forall n <- Along(sh, q) :: n.nctype != Sequence
  }

  lemma {:induction false} ReachedIsUsable(sh: Shape, vars: seq<CDFnode>, q: seq<nat>)
    requires ReachesVar(sh, vars, q)
    ensures Usable(sh, vars, true)
    decreases |q|
  {
    assert Along(sh, q)[0] in Along(sh, q);
    if q != [] {
      var kid := sh.kids[q[0]];
      assert forall n <- Along(kid, q[1..]) :: n in Along(sh, q);
      ReachedIsUsable(kid, vars, q[1..]);
    }
  }

  lemma {:induction false} UsableIsReached(sh: Shape, vars: seq<CDFnode>) returns (q: seq<nat>)
    requires Usable(sh, vars, true)
    ensures ReachesVar(sh, vars, q)
  {
    if sh.node in vars {
      q := [];
    } else {
      var k :| 0 <= k < |sh.kids| && Usable(sh.kids[k], vars, true);
      var rest := UsableIsReached(sh.kids[k], vars);
      q := [k] + rest;
      assert q[1..] == rest;
    }
  }

  lemma {:induction false} FreshAt(sh: Shape, path: seq<nat>)
    requires Fresh(sh) && IsPath(sh, path)
    ensures !At(sh, path).node.usesequence && At(sh, path).node.sequence == null
    decreases |path|
  {
    if path != [] {
      FreshAt(sh.kids[path[0]], path[1..]);
    }
  }

  lemma {:induction false} NestedUnused(sh: Shape, vars: seq<CDFnode>, top: CDFnode, path: seq<nat>)
    requires Marked(sh, vars, top) && IsPath(sh, path)
    ensures !At(sh, path).node.usesequence
    decreases |path|
  {
    if path != [] {
      var kid, rest := sh.kids[path[0]], path[1..];
      if sh.node.nctype == Sequence {
        NestedUnused(kid, vars, sh.node, rest);
      } else if sh.node in vars {
        FreshAt(kid, rest);
      } else {
        NestedUnused(kid, vars, top, rest);
      }
    }
  }

  /** The way to a place is open when no container on it is dimensioned, a sequence, or itself a variable. */
  predicate IsOpen(nodes: seq<CDFnode>, vars: seq<CDFnode>)
  {
    forall n <- nodes :: n.dimset0 == [] && n.nctype != Sequence && n !in vars
  }

  /** Below a place, some variable is reachable without crossing another sequence. */
  ghost predicate HoldsVar(sh: Shape, vars: seq<CDFnode>)
  {
    exists k, q :: 0 <= k < |sh.kids| && ReachesVar(sh.kids[k], vars, q)
  }

  lemma {:induction false} UsableIffHoldsVar(sh: Shape, vars: seq<CDFnode>)
    requires sh.node.nctype == Sequence && sh.node.dimset0 == []
    ensures Usable(sh, vars, false) <==> HoldsVar(sh, vars)
  {
    if Usable(sh, vars, false) {
      var k :| 0 <= k < |sh.kids| && Usable(sh.kids[k], vars, true);
      var q := UsableIsReached(sh.kids[k], vars);
    }
    if HoldsVar(sh, vars) {
      var k, q :| 0 <= k < |sh.kids| && ReachesVar(sh.kids[k], vars, q);
      ReachedIsUsable(sh.kids[k], vars, q);
    }
  }

  /** A node is marked as a usable sequence iff it is a sequence without dimensions, no container above it is
      dimensioned, a sequence or a variable, and it holds a variable that no further sequence encloses. */
  lemma {:induction false} UsedSequences(sh: Shape, vars: seq<CDFnode>, path: seq<nat>)
    requires Marked(sh, vars, null) && IsPath(sh, path)
    ensures var n := At(sh, path).node;
            n.usesequence <==>
              && n.nctype == Sequence && n.dimset0 == []
              && IsOpen(Along(sh, path)[..|path|], vars) && HoldsVar(At(sh, path), vars)
    decreases |path|
  {
    if path == [] {
      if sh.node.nctype == Sequence && sh.node.dimset0 == [] {
        UsableIffHoldsVar(sh, vars);
      }
    } else {
      var kid, rest := sh.kids[path[0]], path[1..];
      var above := Along(sh, path)[..|path|];
      assert above == [sh.node] + Along(kid, rest)[..|rest|];
      assert sh.node == above[0];
      if sh.node.dimset0 != [] {
        FreshAt(kid, rest);
      } else if sh.node.nctype == Sequence {
        NestedUnused(kid, vars, sh.node, rest);
      } else if sh.node in vars {
        FreshAt(kid, rest);
      } else {
        UsedSequences(kid, vars, rest);
      }
    }
  }

  predicate NoneAfter(nodes: seq<CDFnode>, j: nat)
  {
    forall i :: j < i < |nodes| ==> nodes[i].nctype != Sequence
  }

  /** The last sequence among the nodes, or top when there is none. */
  function Nearest(nodes: seq<CDFnode>, top: CDFnode?): (r: CDFnode?)
    ensures (forall n <- nodes :: n.nctype != Sequence) ==> r == top
    ensures forall j :: 0 <= j < |nodes| && nodes[j].nctype == Sequence && NoneAfter(nodes, j) ==> r == nodes[j]
  {
    if nodes == [] then top
    else if nodes[|nodes| - 1].nctype == Sequence then nodes[|nodes| - 1]
    else Nearest(nodes[..|nodes| - 1], top)
  }

  lemma {:induction false} NearestCons(x: CDFnode, nodes: seq<CDFnode>, top: CDFnode?)
    ensures Nearest([x] + nodes, top) == Nearest(nodes, if x.nctype == Sequence then x else top)
  {
    var all := [x] + nodes;
    if nodes == [] {
      assert all[..0] == [];
    } else {
      assert all[..|all| - 1] == [x] + nodes[..|nodes| - 1];
      NearestCons(x, nodes[..|nodes| - 1], top);
    }
  }

  /** Whether the walk gets to the last of the nodes: none before it is a variable, and any dimensioned one is below a
      sequence. */
  predicate IsReached(nodes: seq<CDFnode>, vars: seq<CDFnode>, below: bool)
  {
    && (forall k :: 0 <= k < |nodes| - 1 && nodes[k] in vars ==> nodes[k].nctype == Sequence)
    && (forall k :: 0 <= k < |nodes| && nodes[k].dimset0 != [] ==>
          below || exists j :: 0 <= j < k && nodes[j].nctype == Sequence)
  }

  lemma {:induction false} ReachedTail(x: CDFnode, nodes: seq<CDFnode>, vars: seq<CDFnode>, below: bool)
    requires nodes != [] && IsReached([x] + nodes, vars, below)
    ensures (x in vars ==> x.nctype == Sequence) && (below || x.dimset0 == [])
    ensures IsReached(nodes, vars, below || x.nctype == Sequence)
  {
    var all := [x] + nodes;
    assert all[0] == x;
    forall k | 0 <= k < |nodes| - 1 && nodes[k] in vars
      ensures nodes[k].nctype == Sequence
    {
      assert all[k + 1] == nodes[k];
    }
    forall k | 0 <= k < |nodes| && nodes[k].dimset0 != [] && !below && x.nctype != Sequence
      ensures exists j :: 0 <= j < k && nodes[j].nctype == Sequence
    {
      assert all[k + 1] == nodes[k];
      var j :| 0 <= j < k + 1 && all[j].nctype == Sequence;
      assert nodes[j - 1] == all[j];
    }
  }

  lemma {:induction false} TailReached(x: CDFnode, nodes: seq<CDFnode>, vars: seq<CDFnode>, below: bool)
    requires nodes != [] && (x in vars ==> x.nctype == Sequence) && (below || x.dimset0 == [])
    requires IsReached(nodes, vars, below || x.nctype == Sequence)
    ensures IsReached([x] + nodes, vars, below)
  {
    var all := [x] + nodes;
    forall k | 0 <= k < |all| - 1 && all[k] in vars
      ensures all[k].nctype == Sequence
    {
      assert k > 0 ==> all[k] == nodes[k - 1];
    }
    forall k | 0 <= k < |all| && all[k].dimset0 != [] && !below
      ensures exists j :: 0 <= j < k && all[j].nctype == Sequence
    {
      assert k > 0 && all[k] == nodes[k - 1];
      if x.nctype == Sequence {
        assert all[0] == x;
      } else {
        var j :| 0 <= j < k - 1 && nodes[j].nctype == Sequence;
        assert all[j + 1] == nodes[j];
      }
    }
  }

  lemma {:induction false} ReachedCons(x: CDFnode, nodes: seq<CDFnode>, vars: seq<CDFnode>, below: bool)
    requires nodes != []
    ensures IsReached([x] + nodes, vars, below) <==>
            && (x in vars ==> x.nctype == Sequence) && (below || x.dimset0 == [])
            && IsReached(nodes, vars, below || x.nctype == Sequence)
  {
    if IsReached([x] + nodes, vars, below) {
      ReachedTail(x, nodes, vars, below);
    } else if (x in vars ==> x.nctype == Sequence) && (below || x.dimset0 == [])
              && IsReached(nodes, vars, below || x.nctype == Sequence) {
      TailReached(x, nodes, vars, below);
    }
  }

  /** Every variable that the walk gets to is tied to the nearest sequence that encloses it; no other is. */
  lemma {:induction false} SequenceOfVar(sh: Shape, vars: seq<CDFnode>, top: CDFnode?, path: seq<nat>)
    requires Marked(sh, vars, top) && IsPath(sh, path)
    requires At(sh, path).node in vars && At(sh, path).node.nctype != Sequence
    ensures At(sh, path).node.sequence
         == if IsReached(Along(sh, path), vars, top != null) then Nearest(Along(sh, path)[..|path|], top) else null
    decreases |path|
  {
    if path != [] {
      var kid, rest := sh.kids[path[0]], path[1..];
      ReachedCons(sh.node, Along(kid, rest), vars, top != null);
      assert Along(sh, path)[..|path|] == [sh.node] + Along(kid, rest)[..|rest|];
      NearestCons(sh.node, Along(kid, rest)[..|rest|], top);
      if top == null && sh.node.dimset0 != [] {
        FreshAt(kid, rest);
      } else if sh.node.nctype == Sequence {
        SequenceOfVar(kid, vars, sh.node, rest);
      } else if sh.node in vars {
        FreshAt(kid, rest);
      } else {
        SequenceOfVar(kid, vars, top, rest);
      }
    }
  }
}
