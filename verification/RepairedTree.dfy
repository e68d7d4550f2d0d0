/** The repaired tree as a tree again, and its map onto the tree that it was repaired after. */
module RepairedTree {
  import opened Wrappers
  import opened Tree
  import opened Restruct
  import opened Alike
  import opened Repair
  import opened Mapping
  import opened Alignment

  // ----- Shapes and links

  /** The children of every node of the shape are those that the links give. */
  ghost predicate IsShapeOf(sh: Shape, l: Links)
  {
    && sh.node in l.down && |l.down[sh.node]| == |sh.kids|
    && forall k :: 0 <= k < |sh.kids| ==> l.down[sh.node][k] == sh.kids[k].node && IsShapeOf(sh.kids[k], l)
  }

  lemma {:induction false} LinkedHasShape(sh: Shape, nodes: set<CDFnode>)
    requires Linked(sh) && Nodes(sh) <= nodes
    ensures IsShapeOf(sh, LinksOf(nodes))
  {
    forall k | 0 <= k < |sh.kids|
      ensures IsShapeOf(sh.kids[k], LinksOf(nodes))
    {
      KidNodes(sh, k);
      LinkedHasShape(sh.kids[k], nodes);
    }
  }

  /** A shape of mutual links is linked in the heap that has those links. */
  lemma {:induction false} ShapeIsLinked(sh: Shape, nodes: set<CDFnode>, root: CDFnode)
    requires IsShapeOf(sh, LinksOf(nodes)) && Mutual(LinksOf(nodes), root)
    ensures Linked(sh) && Nodes(sh) <= nodes
  {
    var l := LinksOf(nodes);
    forall k | 0 <= k < |sh.kids|
      ensures Linked(sh.kids[k]) && Nodes(sh.kids[k]) <= nodes && sh.kids[k].node.container == sh.node
    {
      assert ChildLinked(l, root, sh.node, k);
      ShapeIsLinked(sh.kids[k], nodes, root);
    }
    forall x | x in Nodes(sh)
      ensures x in nodes
    {
      if x != sh.node {
        var k := KidOf(sh, |sh.kids|, x);
      }
    }
  }

  // ----- A shape of mutual links has no node twice

  lemma {:induction false} AtSnoc(sh: Shape, path: seq<nat>)
    requires IsPath(sh, path) && path != []
    ensures var last := |path| - 1;
            && IsPath(sh, path[..last]) && path[last] < |At(sh, path[..last]).kids|
            && At(sh, path) == At(sh, path[..last]).kids[path[last]]
    decreases |path|
  {
    if |path| > 1 {
      assert path[..|path| - 1][1..] == path[1..][..|path| - 2];
      AtSnoc(sh.kids[path[0]], path[1..]);
    }
  }

  lemma {:induction false} ShapeAt(sh: Shape, l: Links, path: seq<nat>)
    requires IsShapeOf(sh, l) && IsPath(sh, path)
    ensures IsShapeOf(At(sh, path), l)
    decreases |path|
  {
    if path != [] {
      ShapeAt(sh.kids[path[0]], l, path[1..]);
    }
  }

  /** The parent of the node at a place. */
  lemma {:induction false} ParentAt(sh: Shape, l: Links, root: CDFnode, path: seq<nat>)
    requires IsShapeOf(sh, l) && Mutual(l, root) && IsPath(sh, path) && path != []
    ensures IsPath(sh, path[..|path| - 1]) && At(sh, path).node in l.up && At(sh, path).node != root
    ensures l.up[At(sh, path).node] == At(sh, path[..|path| - 1]).node
  {
    var above := path[..|path| - 1];
    AtSnoc(sh, path);
    ShapeAt(sh, l, above);
    assert ChildLinked(l, root, At(sh, above).node, path[|path| - 1]);
  }

  lemma {:induction false} MutualPlacesDiffer(sh: Shape, l: Links, p: seq<nat>, q: seq<nat>)
    requires IsShapeOf(sh, l) && Mutual(l, sh.node) && IsPath(sh, p) && IsPath(sh, q) && p != q
    ensures At(sh, p).node != At(sh, q).node
    decreases |p| + |q|
  {
    if p == [] {
      ParentAt(sh, l, sh.node, q);
    } else if q == [] {
      ParentAt(sh, l, sh.node, p);
    } else {
      var pa, qa := p[..|p| - 1], q[..|q| - 1];
      ParentAt(sh, l, sh.node, p);
      ParentAt(sh, l, sh.node, q);
      if pa != qa {
        MutualPlacesDiffer(sh, l, pa, qa);
      } else {
        AtSnoc(sh, p);
        AtSnoc(sh, q);
        ShapeAt(sh, l, pa);
        assert p == pa + [p[|p| - 1]] && q == qa + [q[|q| - 1]];
        SiblingsDiffer(At(sh, pa), l, sh.node, p[|p| - 1], q[|q| - 1]);
      }
    }
  }

  lemma {:induction false} SiblingsDiffer(s: Shape, l: Links, root: CDFnode, i: nat, j: nat)
    requires IsShapeOf(s, l) && Mutual(l, root) && i < |s.kids| && j < |s.kids| && i != j
    ensures s.kids[i].node != s.kids[j].node
  {
    assert l.down[s.node][i] == s.kids[i].node && l.down[s.node][j] == s.kids[j].node;
  }

  lemma {:induction false} PlaceOfNode(sh: Shape, x: CDFnode) returns (path: seq<nat>)
    requires x in Nodes(sh)
    ensures IsPath(sh, path) && At(sh, path).node == x
  {
    if x == sh.node {
      path := [];
    } else {
      var k := KidOf(sh, |sh.kids|, x);
      var rest := PlaceOfNode(sh.kids[k], x);
      path := [k] + rest;
      assert path[1..] == rest;
    }
  }

  /** No two places below the given one hold the same node. */
  ghost predicate PlacesAreDistinct(sh: Shape)
  {
    forall p, q {:trigger At(sh, p), At(sh, q)} :: IsPath(sh, p) && IsPath(sh, q) && p != q ==>
      At(sh, p).node != At(sh, q).node
  }

  lemma {:induction false} KidPlace(sh: Shape, i: nat, p: seq<nat>, path: seq<nat>)
    requires PlacesAreDistinct(sh) && i < |sh.kids| && IsPath(sh.kids[i], p) && IsPath(sh, path) && path != [i] + p
    ensures At(sh.kids[i], p).node != At(sh, path).node
  {
    assert ([i] + p)[1..] == p;
    assert At(sh, [i] + p) == At(sh.kids[i], p);
  }

  lemma {:induction false} DistinctByPlaces(sh: Shape)
    requires PlacesAreDistinct(sh)
    ensures Distinct(sh)
  {
    forall k | 0 <= k < |sh.kids|
      ensures sh.node !in Nodes(sh.kids[k]) && Distinct(sh.kids[k])
    {
      if sh.node in Nodes(sh.kids[k]) {
        var p := PlaceOfNode(sh.kids[k], sh.node);
        KidPlace(sh, k, p, []);
      }
      forall p, q | IsPath(sh.kids[k], p) && IsPath(sh.kids[k], q) && p != q
        ensures At(sh.kids[k], p).node != At(sh.kids[k], q).node
      {
        assert ([k] + p)[1..] == p && ([k] + q)[1..] == q;
        assert At(sh, [k] + p).node != At(sh, [k] + q).node;
      }
      DistinctByPlaces(sh.kids[k]);
    }
    forall i, j | 0 <= i < j < |sh.kids|
      ensures Nodes(sh.kids[i]) !! Nodes(sh.kids[j])
    {
      if x :| x in Nodes(sh.kids[i]) && x in Nodes(sh.kids[j]) {
        var p := PlaceOfNode(sh.kids[i], x);
        var q := PlaceOfNode(sh.kids[j], x);
        assert ([j] + q)[1..] == q && ([i] + p)[0] != ([j] + q)[0];
        KidPlace(sh, i, p, [j] + q);
      }
    }
  }

  lemma {:induction false} MutualIsDistinct(sh: Shape, l: Links)
    requires IsShapeOf(sh, l) && Mutual(l, sh.node)
    ensures Distinct(sh)
  {
    forall p, q | IsPath(sh, p) && IsPath(sh, q) && p != q
      ensures At(sh, p).node != At(sh, q).node
    {
      MutualPlacesDiffer(sh, l, p, q);
    }
    DistinctByPlaces(sh);
  }

  // ----- The shape after the repairs

  /** The subtree of child k, inside its wrapper if it has been given one. */
  function AfterKid(sh: Shape, k: nat, l: Links): Shape
    requires k < |sh.kids|
    decreases sh, k, 0
  {
    var kid := After(sh.kids[k], l);
    if sh.node in l.down && k < |l.down[sh.node]| && l.down[sh.node][k] != sh.kids[k].node
    then Shape(l.down[sh.node][k], [kid])
    else kid
  }

  function AfterKids(sh: Shape, n: nat, l: Links): (kids: seq<Shape>)
    requires n <= |sh.kids|
    ensures |kids| == n
    decreases sh, n, 1
  {
    if n == 0 then [] else AfterKids(sh, n - 1, l) + [AfterKid(sh, n - 1, l)]
  }

  function After(sh: Shape, l: Links): (r: Shape)
    ensures r.node == sh.node && |r.kids| == |sh.kids|
    decreases sh, |sh.kids|, 2
  {
    Shape(sh.node, AfterKids(sh, |sh.kids|, l))
  }

  lemma {:induction false} AfterKidsAt(sh: Shape, n: nat, l: Links, k: nat)
    requires k < n <= |sh.kids|
    ensures AfterKids(sh, n, l)[k] == AfterKid(sh, k, l)
  {
    if k < n - 1 {
      AfterKidsAt(sh, n - 1, l, k);
    }
  }

  /** The rewired links have the shape after the repairs. */
  lemma {:induction false} AfterHasShape(sh: Shape, a: Links, l: Links, added: set<CDFnode>)
    requires IsShapeOf(sh, a) && IsRewired(a, l, added)
    ensures IsShapeOf(After(sh, l), l)
  {
    var r := After(sh, l);
    assert sh.node in a.up && IsRewiredAt(a, l, added, sh.node);
    forall k | 0 <= k < |r.kids|
      ensures l.down[r.node][k] == r.kids[k].node && IsShapeOf(r.kids[k], l)
    {
      AfterKidsAt(sh, |sh.kids|, l, k);
      AfterHasShape(sh.kids[k], a, l, added);
      assert l.down[sh.node][k] == a.down[sh.node][k]
          || (l.down[sh.node][k] in added && l.down[l.down[sh.node][k]] == [a.down[sh.node][k]]);
    }
  }

  /** No node of the tree is lost. */
  lemma {:induction false} AfterKeepsNodes(sh: Shape, l: Links)
    ensures Nodes(sh) <= Nodes(After(sh, l))
  {
    forall x | x in Nodes(sh)
      ensures x in Nodes(After(sh, l))
    {
      if x != sh.node {
        var k := KidOf(sh, |sh.kids|, x);
        AfterKeepsNodes(sh.kids[k], l);
        AfterKidsAt(sh, |sh.kids|, l, k);
        KidNodes(After(sh, l), k);
        var kid := AfterKid(sh, k, l);
        if kid.node != sh.kids[k].node {
          KidNodes(kid, 0);
        }
      }
    }
  }

  // ----- Its map onto the pattern

  /** For a node that is no dataset the two orders of the comparison agree. */
  lemma {:induction false} FlipMatch(n: CDFnode, pn: CDFnode, columbia: bool)
    requires n.nctype != Dataset && SimpleNodeMatch(n, pn, columbia)
    ensures SimpleNodeMatch(pn, n, columbia)
  {
  }

  /** The nodes whose parent stands on top of a subtree of the pattern are its children. */
  lemma {:induction false} ChildOfPattern(psh: Shape, full: Shape, pn: CDFnode) returns (j: nat)
    requires Linked(psh) && Distinct(psh) && psh.node.container == null && Linked(full)
    requires pn in Nodes(psh) && pn.container == full.node
    ensures j < |full.kids| && full.kids[j].node == pn
  {
    LinkedNode(psh, pn);
    j :| 0 <= j < |full.node.subnodes| && full.node.subnodes[j] == pn;
  }

  /** The pattern, as a linked tree, and the counterparts that a repair after it has given to all nodes. */
  ghost predicate IsFitted(l: Links, root: CDFnode, m: map<CDFnode, CDFnode>, psh: Shape, columbia: bool)
    reads Nodes(psh)`container, Nodes(psh)`subnodes
  {
    && Mutual(l, root) && AllFit(l, root, psh.node, m, [], ParentsOf(psh), columbia)
    && Linked(psh) && Distinct(psh) && psh.node.container == null
  }

  /** Child k of a place has its counterpart among the children of the place's counterpart. */
  lemma {:induction false} KidCounterpart(s: Shape, k: nat, full: Shape, l: Links, root: CDFnode,
                                          m: map<CDFnode, CDFnode>, psh: Shape, columbia: bool) returns (j: nat)
    requires IsShapeOf(s, l) && k < |s.kids| && s.kids[k].node.nctype != Dataset
    requires IsFitted(l, root, m, psh, columbia) && Linked(full) && s.node in m && m[s.node] == full.node
    ensures j < |full.kids| && s.kids[k].node in m && m[s.kids[k].node] == full.kids[j].node
    ensures SimpleNodeMatch(s.kids[k].node, full.kids[j].node, columbia)
    ensures SimpleNodeMatch(full.kids[j].node, s.kids[k].node, columbia)
    ensures m[s.kids[k].node].container == full.node
  {
    var c := s.kids[k].node;
    assert l.down[s.node][k] == c && ChildLinked(l, root, s.node, k);
    assert c in m && FitsAt(l, m, [], ParentsOf(psh), columbia, c);
    assert !IsPending(c, []);
    j := ChildOfPattern(psh, full, m[c]);
    FlipMatch(c, full.kids[j].node, columbia);
  }

  /** A node with children has a counterpart with children. */
  lemma {:induction false} InnerCounterpart(s: Shape, full: Shape, l: Links, root: CDFnode, m: map<CDFnode, CDFnode>,
                                            psh: Shape, columbia: bool)
    requires IsShapeOf(s, l) && NoInnerDataset(s) && s.kids != []
    requires IsFitted(l, root, m, psh, columbia) && Linked(full) && s.node in m && m[s.node] == full.node
    ensures full.kids != []
  {
    var j := KidCounterpart(s, 0, full, l, root, m, psh, columbia);
  }

  /** A child that matches something with children matches nothing else. */
  lemma {:induction false} OnlyMatch(node: CDFnode, full: Shape, j: nat, columbia: bool)
    requires HasLeafTwins(full) && j < |full.kids| && full.kids[j].kids != []
    requires SimpleNodeMatch(full.kids[j].node, node, columbia)
    ensures forall i :: 0 <= i < |full.kids| && i != j ==> full.kids[i].node.ocname != node.ocname
    ensures forall i :: 0 <= i < |full.kids| && i != j ==> !SimpleNodeMatch(full.kids[i].node, node, columbia)
  {
    assert full.kids[j].node.ocname == node.ocname;
    forall i | 0 <= i < |full.kids| && i != j
      ensures full.kids[i].node.ocname != node.ocname
    {
      var p, q := if i < j then i else j, if i < j then j else i;
      assert full.kids[p].kids != [] || full.kids[q].kids != [];
    }
  }

  lemma {:induction false} LastIsLast(node: CDFnode, full: Shape, n: nat, j: nat, columbia: bool)
    requires j < n <= |full.kids| && SimpleNodeMatch(full.kids[j].node, node, columbia)
    ensures var last := LastMatch(node, full, n, columbia);
            && j <= last < n && SimpleNodeMatch(full.kids[last].node, node, columbia)
            && forall i :: last < i < n ==> !SimpleNodeMatch(full.kids[i].node, node, columbia)
  {
    if !SimpleNodeMatch(full.kids[n - 1].node, node, columbia) {
      LastIsLast(node, full, n - 1, j, columbia);
    }
  }

  /** b is the last of the siblings of pn, itself included, that matches x. */
  ghost predicate IsLastLike(x: CDFnode, pn: CDFnode, b: CDFnode, columbia: bool)
    reads pn`container, (if pn.container == null then {} else {pn.container})`subnodes
  {
    && pn.container != null
    && exists k :: 0 <= k < |pn.container.subnodes| && IsLastAt(x, pn.container.subnodes, k, b, columbia)
  }

  predicate IsLastAt(x: CDFnode, siblings: seq<CDFnode>, k: nat, b: CDFnode, columbia: bool)
    requires k < |siblings|
  {
    && siblings[k] == b && SimpleNodeMatch(b, x, columbia)
    && forall i :: k < i < |siblings| ==> !SimpleNodeMatch(siblings[i], x, columbia)
  }

  /** What stands at a child's place is the last sibling of the child's counterpart that matches the child. */
  lemma {:induction false} KidHasLastLike(s: Shape, k: nat, full: Shape, l: Links, root: CDFnode,
                                          m: map<CDFnode, CDFnode>, psh: Shape, columbia: bool) returns (last: nat)
    requires IsShapeOf(s, l) && NoInnerDataset(s) && k < |s.kids|
    requires IsFitted(l, root, m, psh, columbia) && Linked(full) && HasLeafTwins(full)
    requires s.node in m && m[s.node] == full.node
    ensures var c := s.kids[k].node;
            && last == LastMatch(c, full, |full.kids|, columbia) < |full.kids| && c in m
            && IsLastLike(c, m[c], full.kids[last].node, columbia)
            && (s.kids[k].kids != [] ==> m[c] == full.kids[last].node)
  {
    var c := s.kids[k].node;
    var j := KidCounterpart(s, k, full, l, root, m, psh, columbia);
    LastIsLast(c, full, |full.kids|, j, columbia);
    last := LastMatch(c, full, |full.kids|, columbia);
    assert IsLastAt(c, full.node.subnodes, last, full.kids[last].node, columbia);
    if s.kids[k].kids != [] {
      InnerCounterpart(s.kids[k], full.kids[j], l, root, m, psh, columbia);
      OnlyMatch(c, full, j, columbia);
    }
  }

  /** What stands at a node's place is the last sibling of the node's counterpart that matches the node. */
  lemma {:induction false} FitIsLast(s: Shape, full: Shape, l: Links, root: CDFnode, m: map<CDFnode, CDFnode>,
                                     psh: Shape, columbia: bool, path: seq<nat>)
    requires IsShapeOf(s, l) && NoInnerDataset(s) && IsPath(s, path) && path != []
    requires IsFitted(l, root, m, psh, columbia) && Linked(full) && HasLeafTwins(full)
    requires s.node in m && m[s.node] == full.node
    ensures var x, c := At(s, path).node, Counterpart(s, full, path, columbia);
            c.Some? && x in m && IsLastLike(x, m[x], c.value.node, columbia)
    decreases |path|
  {
    var last := KidHasLastLike(s, path[0], full, l, root, m, psh, columbia);
    if |path| > 1 {
      FitIsLast(s.kids[path[0]], full.kids[last], l, root, m, psh, columbia, path[1..]);
    }
  }

  /** The base of a node of a repaired tree: the last sibling of its counterpart that matches it. */
  ghost predicate IsBaseFor(x: CDFnode, pn: CDFnode, b: CDFnode, root: CDFnode, columbia: bool)
    reads pn`container, (if pn.container == null then {} else {pn.container})`subnodes
  {
    if x == root then b == pn else IsLastLike(x, pn, b, columbia)
  }

  /** Mapping a repaired tree onto its pattern sends every node to the last sibling of the counterpart that the repair
      gave it. */
  lemma {:induction false} MapIsFit(s: Shape, l: Links, m: map<CDFnode, CDFnode>, psh: Shape, columbia: bool,
                                    x: CDFnode)
    requires IsShapeOf(s, l) && NoInnerDataset(s) && x in Nodes(s)
    requires IsFitted(l, s.node, m, psh, columbia) && HasLeafTwins(psh)
    ensures x in m && x in Assign(s, psh, map[], columbia)
    ensures IsBaseFor(x, m[x], Assign(s, psh, map[], columbia)[x], s.node, columbia)
  {
    var path := PlaceOfNode(s, x);
    MutualIsDistinct(s, l);
    TwinsAreTidy(s, psh, columbia);
    MappedToCounterpart(s, psh, columbia, path);
    if path != [] {
      FitIsLast(s, psh, l, s.node, m, psh, columbia, path);
      ParentAt(s, l, s.node, path);
    }
  }

  /** The last sibling that matches is the counterpart itself iff no later sibling matches. */
  lemma {:induction false} LastIsCounterpart(x: CDFnode, pn: CDFnode, b: CDFnode, columbia: bool, k: nat)
    requires pn.container != null && k < |pn.container.subnodes| && pn.container.subnodes[k] == pn
    requires forall i, j :: 0 <= i < j < |pn.container.subnodes| ==>
               pn.container.subnodes[i] != pn.container.subnodes[j]
    requires SimpleNodeMatch(pn, x, columbia) && IsLastLike(x, pn, b, columbia)
    ensures b == pn <==> forall i :: k < i < |pn.container.subnodes| ==>
              !SimpleNodeMatch(pn.container.subnodes[i], x, columbia)
  {
    var n :| 0 <= n < |pn.container.subnodes| && IsLastAt(x, pn.container.subnodes, n, b, columbia);
  }

  // ----- When the map runs through

  /** A place that is followed by name has no more children than what it is followed to. */
  predicate IsNoWider(sh: Shape, psh: Shape, path: seq<nat>, columbia: bool)
  {
    IsPath(sh, path) && Followed(sh, psh, path, columbia).Some? ==>
      |At(sh, path).kids| <= |Followed(sh, psh, path, columbia).value.kids|
  }

  ghost predicate NoneWider(sh: Shape, psh: Shape, columbia: bool)
  {
    forall path: seq<nat> {:trigger IsNoWider(sh, psh, path, columbia)} :: IsNoWider(sh, psh, path, columbia)
  }

  /** The namesake of a child, if it has a matching one, is followed. */
  ghost predicate KidNotWider(kid: Shape, psh: Shape, columbia: bool)
  {
    HasNamesake(kid.node, psh, columbia) ==> NoneWider(kid, psh.kids[FirstNamed(psh, kid.node.ocname, 0)], columbia)
  }

  lemma {:induction false} NoneWiderSteps(sh: Shape, psh: Shape, columbia: bool)
    ensures NoneWider(sh, psh, columbia)
       <==> |sh.kids| <= |psh.kids| && forall k :: 0 <= k < |sh.kids| ==> KidNotWider(sh.kids[k], psh, columbia)
  {
    if NoneWider(sh, psh, columbia) {
      assert IsNoWider(sh, psh, [], columbia);
      forall k | 0 <= k < |sh.kids|
        ensures KidNotWider(sh.kids[k], psh, columbia)
      {
        if HasNamesake(sh.kids[k].node, psh, columbia) {
          var pkid := psh.kids[FirstNamed(psh, sh.kids[k].node.ocname, 0)];
          forall path: seq<nat>
            ensures IsNoWider(sh.kids[k], pkid, path, columbia)
          {
            assert ([k] + path)[1..] == path;
            assert IsNoWider(sh, psh, [k] + path, columbia);
          }
        }
      }
    }
    if |sh.kids| <= |psh.kids| && forall k :: 0 <= k < |sh.kids| ==> KidNotWider(sh.kids[k], psh, columbia) {
      forall path: seq<nat>
        ensures IsNoWider(sh, psh, path, columbia)
      {
        if path != [] && IsPath(sh, path) && HasNamesake(sh.kids[path[0]].node, psh, columbia) {
          var kid := sh.kids[path[0]];
          assert KidNotWider(kid, psh, columbia);
          assert IsNoWider(kid, psh.kids[FirstNamed(psh, kid.node.ocname, 0)], path[1..], columbia);
        }
      }
    }
  }

  lemma {:induction false} LeafRuns(leaf: Shape, full: Shape, columbia: bool)
    requires leaf.kids == [] && leaf.node.nctype != Dataset
    requires forall j :: 0 <= j < |full.kids| ==> full.kids[j].node.nctype != Dataset
    ensures KidRuns(leaf, full, |full.kids|, columbia) && KidNotWider(leaf, full, columbia)
  {
    forall j | 0 <= j < |full.kids| && SimpleNodeMatch(full.kids[j].node, leaf.node, columbia)
      ensures RunsThrough(leaf, full.kids[j], columbia)
    {
      FlipMatch(full.kids[j].node, leaf.node, columbia);
    }
    forall pkid: Shape, path: seq<nat>
      ensures IsNoWider(leaf, pkid, path, columbia)
    {
    }
  }

  /** The walk comes to a child with children once, at its namesake. */
  lemma {:induction false} InnerRuns(kid: Shape, full: Shape, j: nat, columbia: bool)
    requires HasLeafTwins(full) && j < |full.kids| && full.kids[j].kids != []
    requires SimpleNodeMatch(full.kids[j].node, kid.node, columbia)
             && SimpleNodeMatch(kid.node, full.kids[j].node, columbia)
    ensures KidRuns(kid, full, |full.kids|, columbia) <==> RunsThrough(kid, full.kids[j], columbia)
    ensures HasNamesake(kid.node, full, columbia) && FirstNamed(full, kid.node.ocname, 0) == j
  {
    OnlyMatch(kid.node, full, j, columbia);
    assert full.kids[j].node.ocname == kid.node.ocname;
  }

  /** A wrapped field runs through. */
  lemma {:induction false} WrappedRuns(w: Shape, full: Shape, j: nat, f: nat, columbia: bool)
    requires HasLeafTwins(full) && PlainGrids(full) && j < |full.kids| && full.kids[j].node.nctype == Grid
    requires SimpleNodeMatch(full.kids[j].node, w.node, columbia)
             && SimpleNodeMatch(w.node, full.kids[j].node, columbia)
    requires |w.kids| == 1 && w.kids[0].kids == [] && w.kids[0].node.nctype != Dataset && f < |full.kids[j].kids|
    ensures KidRuns(w, full, |full.kids|, columbia)
  {
    InnerRuns(w, full, j, columbia);
    LeafRuns(w.kids[0], full.kids[j], columbia);
  }

  /** A repaired tree and what is needed to map it onto the pattern. */
  ghost predicate IsMappable(sh: Shape, full: Shape, a: Links, l: Links, added: set<CDFnode>, root: CDFnode,
                             m: map<CDFnode, CDFnode>, psh: Shape, columbia: bool)
    reads Nodes(psh)`container, Nodes(psh)`subnodes, Nodes(full)`container, Nodes(full)`subnodes
  {
    && IsShapeOf(sh, a) && IsRewired(a, l, added) && PlainTree(sh) && IsFitted(l, root, m, psh, columbia)
    && (forall w <- added :: w in m && IsWrapper(w, m[w]))
    && Linked(full) && HasLeafTwins(full) && PlainGrids(full) && sh.node in m && m[sh.node] == full.node
  }

  /** A repaired tree runs through iff the tree before the repair was nowhere wider than the pattern. */
  lemma {:induction false} RunsIffNoneWider(sh: Shape, full: Shape, a: Links, l: Links, added: set<CDFnode>,
                                            root: CDFnode, m: map<CDFnode, CDFnode>, psh: Shape, columbia: bool)
    requires IsMappable(sh, full, a, l, added, root, m, psh, columbia) && SimpleNodeMatch(sh.node, full.node, columbia)
    ensures RunsThrough(After(sh, l), full, columbia) <==> NoneWider(sh, full, columbia)
    decreases sh, 1
  {
    var r := After(sh, l);
    NoneWiderSteps(sh, full, columbia);
    forall k | 0 <= k < |sh.kids|
      ensures KidRuns(r.kids[k], full, |full.kids|, columbia) <==> KidNotWider(sh.kids[k], full, columbia)
    {
      KidRunsIff(sh, k, full, a, l, added, root, m, psh, columbia);
    }
  }

  lemma {:induction false} KidRunsIff(sh: Shape, k: nat, full: Shape, a: Links, l: Links, added: set<CDFnode>,
                                      root: CDFnode, m: map<CDFnode, CDFnode>, psh: Shape, columbia: bool)
    requires IsMappable(sh, full, a, l, added, root, m, psh, columbia) && k < |sh.kids|
    ensures KidRuns(After(sh, l).kids[k], full, |full.kids|, columbia) <==> KidNotWider(sh.kids[k], full, columbia)
    decreases sh, 0
  {
    var r, kid := After(sh, l), sh.kids[k];
    AfterHasShape(sh, a, l, added);
    AfterIsPlain(sh, a, l, added);
    AfterKidsAt(sh, |sh.kids|, l, k);
    assert IsRewiredAt(a, l, added, sh.node);
    var j := KidCounterpart(r, k, full, l, root, m, psh, columbia);
    var pkid := full.kids[j];
    if r.kids[k].node != kid.node {
      WrappedKidRuns(r.kids[k], kid, j, full, a, l, added, root, m, psh, columbia);
    } else if kid.kids == [] {
      LeafRuns(kid, full, columbia);
      assert r.kids[k] == kid;
    } else {
      InnerCounterpart(r.kids[k], pkid, l, root, m, psh, columbia);
      InnerRuns(r.kids[k], full, j, columbia);
      RunsIffNoneWider(kid, pkid, a, l, added, root, m, psh, columbia);
    }
  }

  lemma {:induction false} WrappedKidRuns(w: Shape, kid: Shape, j: nat, full: Shape, a: Links, l: Links,
                                          added: set<CDFnode>, root: CDFnode, m: map<CDFnode, CDFnode>, psh: Shape,
                                          columbia: bool)
    requires IsFitted(l, root, m, psh, columbia) && IsShapeOf(w, l) && w.kids == [After(kid, l)] && PlainTree(kid)
    requires w.node in m && IsWrapper(w.node, m[w.node]) && kid.node.nctype != Dataset
    requires Linked(full) && HasLeafTwins(full) && PlainGrids(full) && j < |full.kids| && m[w.node] == full.kids[j].node
    requires SimpleNodeMatch(full.kids[j].node, w.node, columbia)
             && SimpleNodeMatch(w.node, full.kids[j].node, columbia)
    ensures KidRuns(w, full, |full.kids|, columbia) && KidNotWider(kid, full, columbia)
  {
    var f := KidCounterpart(w, 0, full.kids[j], l, root, m, psh, columbia);
    assert kid.kids == [] by {
      assert full.kids[j].kids[f].node.nctype == Atomic;
    }
    WrappedRuns(w, full, j, f, columbia);
    LeafRuns(kid, full, columbia);
  }

  // ----- Repairing and mapping

  lemma {:induction false} AfterIsPlain(sh: Shape, a: Links, l: Links, added: set<CDFnode>)
    requires IsShapeOf(sh, a) && IsRewired(a, l, added) && PlainTree(sh)
    requires forall w <- added :: w.nctype == Structure
    ensures NoInnerDataset(After(sh, l))
  {
    var r := After(sh, l);
    assert sh.node in a.up && IsRewiredAt(a, l, added, sh.node);
    forall k | 0 <= k < |r.kids|
      ensures r.kids[k].node.nctype != Dataset && NoInnerDataset(r.kids[k])
    {
      AfterKidsAt(sh, |sh.kids|, l, k);
      AfterIsPlain(sh.kids[k], a, l, added);
      assert l.down[sh.node][k] == a.down[sh.node][k]
          || (l.down[sh.node][k] in added && l.down[l.down[sh.node][k]] == [a.down[sh.node][k]]);
    }
  }

  /** The new nodes stand in the repaired tree, too. */
  lemma {:induction false} AfterHasAdded(sh: Shape, a: Links, l: Links, added: set<CDFnode>, w: CDFnode)
    requires IsShapeOf(sh, a) && IsRewired(a, l, added) && Mutual(l, sh.node) && a.up.Keys == Nodes(sh) && w in added
    ensures w in Nodes(After(sh, l))
  {
    var r := After(sh, l);
    AfterHasShape(sh, a, l, added);
    AfterKeepsNodes(sh, l);
    assert ParentLinked(l, w);
    var parent := l.up[w];
    ChildInShape(r, l, parent, w);
  }

  lemma {:induction false} ChildInShape(s: Shape, l: Links, parent: CDFnode, c: CDFnode)
    requires IsShapeOf(s, l) && parent in Nodes(s) && parent in l.down && c in l.down[parent]
    ensures c in Nodes(s)
  {
    if parent == s.node {
      var k :| 0 <= k < |l.down[parent]| && l.down[parent][k] == c;
      KidNodes(s, k);
    } else {
      var k := KidOf(s, |s.kids|, parent);
      ChildInShape(s.kids[k], l, parent, c);
      KidNodes(s, k);
    }
  }

  /** What a repair leaves can be mapped: the repaired tree has a shape, with every old and new node. */
  lemma {:induction false} AfterRepair(sh: Shape, a: Links, psh: Shape, m: map<CDFnode, CDFnode>, ws: seq<CDFnode>,
                                       pattern: map<CDFnode, CDFnode?>, columbia: bool)
    requires IsShapeOf(sh, a) && PlainTree(sh) && a.up.Keys == Nodes(sh)
    requires IsRepaired(a, LinksOf(Nodes(sh) + SetOf(ws)), sh.node, psh.node, m, ws, pattern, columbia)
    ensures var r := After(sh, LinksOf(Nodes(sh) + SetOf(ws)));
            && IsShapeOf(r, LinksOf(Nodes(sh) + SetOf(ws))) && NoInnerDataset(r) && Linked(r)
            && Nodes(r) == Nodes(sh) + SetOf(ws)
  {
    var l := LinksOf(Nodes(sh) + SetOf(ws));
    var r := After(sh, l);
    AfterHasShape(sh, a, l, SetOf(ws));
    AfterIsPlain(sh, a, l, SetOf(ws));
    ShapeIsLinked(r, Nodes(sh) + SetOf(ws), sh.node);
    AfterKeepsNodes(sh, l);
    forall w | w in SetOf(ws)
      ensures w in Nodes(r)
    {
      AfterHasAdded(sh, a, l, SetOf(ws), w);
    }
  }

  /** A dataset holds a grid of an array and a map, and a variable; the server answers with all three bare. Every node
      can be placed, but the answer is wider than the dataset. */
  lemma {:induction false} BareFieldsAbort(root: CDFnode, arr: CDFnode, mp: CDFnode, v: CDFnode, proot: CDFnode,
                                           grid: CDFnode, parr: CDFnode, pmp: CDFnode, pv: CDFnode)
    requires grid.nctype == Grid && parr.nctype == Atomic && pmp.nctype == Atomic && pv.nctype == Atomic
    requires SimpleNodeMatch(arr, parr, false) && SimpleNodeMatch(mp, pmp, false) && SimpleNodeMatch(v, pv, false)
    requires arr.ocname != mp.ocname && v.ocname != grid.ocname
    ensures var sh := Shape(root, [Shape(arr, []), Shape(mp, []), Shape(v, [])]);
            var psh := Shape(proot, [Shape(grid, [Shape(parr, []), Shape(pmp, [])]), Shape(pv, [])]);
            HasLeafTwins(psh) && AllPlaceable(sh, psh, false) && !NoneWider(sh, psh, false)
  {
    var sh := Shape(root, [Shape(arr, []), Shape(mp, []), Shape(v, [])]);
    var g := Shape(grid, [Shape(parr, []), Shape(pmp, [])]);
    var psh := Shape(proot, [g, Shape(pv, [])]);
    forall path: seq<nat>, i: nat
      ensures IsPlaceable(sh, psh, path, i, false)
    {
      if path == [] {
        assert IsGridField(arr, psh, 0, 0, false) && IsGridField(mp, psh, 0, 1, false);
        assert FirstNamed(psh, v.ocname, 1) == 1 && FirstNamed(psh, v.ocname, 0) == 1;
      }
    }
    assert !IsNoWider(sh, psh, [], false);
  }

  /** Where a grid's array and its map are alike, the repair takes the first of them and the map the last. */
  lemma {:induction false} TwinsDiffer(node: CDFnode, grid: CDFnode, arr: CDFnode, mp: CDFnode)
    requires SimpleNodeMatch(node, arr, false) && SimpleNodeMatch(arr, mp, false) && node.nctype == Atomic
    ensures var g := Shape(grid, [Shape(arr, []), Shape(mp, [])]);
            && HasLeafTwins(g) && HasNamesake(node, g, false) && FirstNamed(g, node.ocname, 0) == 0
            && Counterpart(Shape(grid, [Shape(node, [])]), g, [0], false) == Some(Shape(mp, []))
  {
    var g := Shape(grid, [Shape(arr, []), Shape(mp, [])]);
    assert [0][1..] == [];
    assert LastMatch(node, g, 2, false) == 1;
  }

  /** The base node of every node is the last sibling of its counterpart that matches it. */
  ghost predicate AreBases(nodes: set<CDFnode>, m: map<CDFnode, CDFnode>, psh: Shape, root: CDFnode, columbia: bool)
    reads nodes`basenode, Nodes(psh)`container, Nodes(psh)`subnodes
  {
    forall n <- nodes :: n in m && n.basenode != null && IsBaseOf(n, n.basenode, m, psh, root, columbia)
  }

  ghost predicate IsBaseOf(n: CDFnode, b: CDFnode, m: map<CDFnode, CDFnode>, psh: Shape, root: CDFnode, columbia: bool)
    requires n in m
    reads Nodes(psh)`container, Nodes(psh)`subnodes
  {
    && m[n] in Nodes(psh) && (m[n].container == null || m[n].container in Nodes(psh))
    && IsBaseFor(n, m[n], b, root, columbia)
  }

  lemma {:induction false} BasesFit(r: Shape, l: Links, m: map<CDFnode, CDFnode>, psh: Shape, columbia: bool,
                                    x: CDFnode)
    requires IsShapeOf(r, l) && NoInnerDataset(r) && x in Nodes(r)
    requires IsFitted(l, r.node, m, psh, columbia) && HasLeafTwins(psh)
    ensures x in m && x in Assign(r, psh, map[], columbia)
    ensures IsBaseOf(x, Assign(r, psh, map[], columbia)[x], m, psh, r.node, columbia)
  {
    MapIsFit(r, l, m, psh, columbia, x);
    if x != r.node {
      assert FitsAt(l, m, [], ParentsOf(psh), columbia, x);
      assert !IsPending(x, []);
    }
    LinkedNode(psh, m[x]);
  }

  /** Every node is alike its base, but for a columbia root. */
  ghost predicate AreAlikeBases(nodes: set<CDFnode>, root: CDFnode, columbia: bool)
    reads nodes`basenode
  {
    forall n <- nodes :: n.basenode != null && IsLikeBase(n, n.basenode, root, columbia)
  }

  /** The node and its base have the same name, number of dimensions, kind and type. */
  predicate IsLikeBase(n: CDFnode, b: CDFnode, root: CDFnode, columbia: bool)
  {
    AlikeNodes(n, b) || (columbia && n == root && n.nctype == Dataset)
  }

  /** The bases stand where they should, and each is like its node. */
  ghost predicate HaveFittingBases(nodes: set<CDFnode>, m: map<CDFnode, CDFnode>, psh: Shape, root: CDFnode,
                                   columbia: bool)
    reads nodes`basenode, Nodes(psh)`container, Nodes(psh)`subnodes
  {
    AreBases(nodes, m, psh, root, columbia) && AreAlikeBases(nodes, root, columbia)
  }

  lemma {:induction false} InnerIsNoDataset(psh: Shape, x: CDFnode)
    requires HasLeafTwins(psh) && x in Nodes(psh) && x != psh.node
    ensures x.nctype != Dataset
  {
    var k := KidOf(psh, |psh.kids|, x);
    if x != psh.kids[k].node {
      InnerIsNoDataset(psh.kids[k], x);
    }
  }

  lemma {:induction false} BaseIsAlike(n: CDFnode, b: CDFnode, m: map<CDFnode, CDFnode>, psh: Shape, root: CDFnode,
                                       columbia: bool)
    requires n in m && root in m && m[root] == psh.node && SimpleNodeMatch(root, psh.node, columbia)
    requires Linked(psh) && Distinct(psh) && HasLeafTwins(psh) && IsBaseOf(n, b, m, psh, root, columbia)
    ensures IsLikeBase(n, b, root, columbia)
  {
    if n == root {
      MatchIffAlike(root, b, columbia);
    } else {
      var siblings := m[n].container.subnodes;
      var k :| 0 <= k < |siblings| && IsLastAt(n, siblings, k, b, columbia);
      LinkedNode(psh, m[n].container);
      InnerIsNoDataset(psh, b);
      MatchIffAlike(b, n, columbia);
    }
  }

  /** Without any new node the tree has the shape that it had. */
  lemma {:induction false} AfterNothing(sh: Shape, l: Links)
    requires IsShapeOf(sh, l)
    ensures After(sh, l) == sh
  {
    forall k | 0 <= k < |sh.kids|
      ensures After(sh, l).kids[k] == sh.kids[k]
    {
      AfterKidsAt(sh, |sh.kids|, l, k);
      AfterNothing(sh.kids[k], l);
    }
  }

  lemma {:induction false} AllBasesFit(r: Shape, l: Links, m: map<CDFnode, CDFnode>, psh: Shape, columbia: bool,
                                       all: set<CDFnode>)
    requires IsShapeOf(r, l) && NoInnerDataset(r) && Nodes(r) == all && IsFitted(l, r.node, m, psh, columbia)
    ensures HasLeafTwins(psh) ==>
              forall x <- all ::
                && x in m && x in Assign(r, psh, map[], columbia)
                && IsBaseOf(x, Assign(r, psh, map[], columbia)[x], m, psh, r.node, columbia)
                && IsLikeBase(x, Assign(r, psh, map[], columbia)[x], r.node, columbia)
  {
    if HasLeafTwins(psh) {
      forall x | x in all
        ensures x in m && x in Assign(r, psh, map[], columbia)
        ensures IsBaseOf(x, Assign(r, psh, map[], columbia)[x], m, psh, r.node, columbia)
        ensures IsLikeBase(x, Assign(r, psh, map[], columbia)[x], r.node, columbia)
      {
        BasesFit(r, l, m, psh, columbia, x);
        BaseIsAlike(x, Assign(r, psh, map[], columbia)[x], m, psh, r.node, columbia);
      }
    }
  }

  /** Map a repaired tree onto the tree that it was repaired after. */
  method MapRepaired(root: CDFnode, fullroot: CDFnode, tree: CDFtree, columbia: bool, debug: bool, ghost r: Shape,
                     ghost psh: Shape, ghost m: map<CDFnode, CDFnode>, ghost all: set<CDFnode>,
                     ghost nodes: set<CDFnode>)
    returns (end: Ending)
    requires r.node == root && psh.node == fullroot && Linked(r) && NoInnerDataset(r) && Nodes(r) == all
    requires IsShapeOf(r, LinksOf(all)) && IsFitted(LinksOf(all), root, m, psh, columbia)
    requires all <= nodes && nodes !! Nodes(psh) && forall n :: n in nodes <==> n in tree.nodes
    modifies nodes`basenode
    ensures end == if debug && !RunsThrough(r, psh, columbia) then Aborted else Returned(NC_NOERR)
    ensures LinksOf(all) == old(LinksOf(all))
    ensures end == Returned(NC_NOERR) && HasLeafTwins(psh) ==> HaveFittingBases(all, m, psh, root, columbia)
    ensures AlikeTrees(r, psh) ==> end == Returned(NC_NOERR) && AreInPlace(r, psh)
  {
    MutualIsDistinct(r, LinksOf(all));
    AllBasesFit(r, LinksOf(all), m, psh, columbia, all);
    end := MapNodes(root, fullroot, tree, columbia, debug, r, psh, nodes);
  }

  /** Map a tree that has been repaired. */
  method MapAfter(ddsroot: CDFnode, fullroot: CDFnode, columbia: bool, debug: bool, tree: CDFtree, ghost sh: Shape,
                  ghost psh: Shape, ghost a: Links, ghost m: map<CDFnode, CDFnode>, ghost ws: seq<CDFnode>,
                  ghost all: set<CDFnode>, ghost nodes: set<CDFnode>) returns (end: Ending)
    requires sh.node == ddsroot && IsShapeOf(sh, a) && PlainTree(sh) && a.up.Keys == Nodes(sh)
    requires psh.node == fullroot && Linked(psh) && Distinct(psh) && PlainGrids(psh) && fullroot.container == null
    requires all == Nodes(sh) + SetOf(ws) && all <= nodes && nodes == SetOf(tree.nodes) && nodes !! Nodes(psh)
    requires IsRepaired(a, LinksOf(all), ddsroot, fullroot, m, ws, ParentsOf(psh), columbia)
    modifies nodes`basenode
    ensures LinksOf(all) == old(LinksOf(all))
    ensures end == if debug && !RunsThrough(After(sh, LinksOf(all)), psh, columbia) then Aborted else Returned(NC_NOERR)
    ensures HasLeafTwins(psh) ==> (end == Returned(NC_NOERR) <==> (debug ==> NoneWider(sh, psh, columbia)))
    ensures end == Returned(NC_NOERR) && HasLeafTwins(psh) ==> HaveFittingBases(all, m, psh, ddsroot, columbia)
    ensures AlikeTrees(sh, psh) && ws == [] ==> end == Returned(NC_NOERR) && AreInPlace(sh, psh)
  {
    AfterRepair(sh, a, psh, m, ws, ParentsOf(psh), columbia);
    if ws == [] {
      RepairedAlike(a, LinksOf(all), ddsroot, fullroot, m, ws, ParentsOf(psh), columbia);
      AfterNothing(sh, LinksOf(all));
    }
    if HasLeafTwins(psh) {
      RunsIffNoneWider(sh, psh, a, LinksOf(all), SetOf(ws), ddsroot, m, psh, columbia);
    }
    end := MapRepaired(ddsroot, fullroot, tree, columbia, debug, After(sh, LinksOf(all)), psh, m, all, nodes);
  }

  /** Repair a constrained tree after the full one, and map it onto that. For trees as they are parsed this runs to the
      end iff the roots match, every node can be placed and no node is wider than the one it is followed to; every node
      then has the last sibling of its counterpart that matches it for its base. */
  method RepairAndMap(ddsroot: CDFnode, fullroot: CDFnode, columbia: bool, debug: bool, tree: CDFtree, ghost sh: Shape,
                      ghost psh: Shape)
    returns (end: Ending, ghost ws: seq<CDFnode>, ghost m: map<CDFnode, CDFnode>)
    requires sh.node == ddsroot && Linked(sh) && Distinct(sh) && PlainTree(sh)
    requires psh.node == fullroot && Linked(psh) && Distinct(psh) && PlainGrids(psh) && fullroot.container == null
    requires Nodes(sh) <= SetOf(tree.nodes) && SetOf(tree.nodes) !! Nodes(psh) && !tree.restructed
    modifies Nodes(sh)`container, Nodes(sh)`subnodes, tree`nodes, SetOf(tree.nodes)`basenode
    ensures end == if !SimpleNodeMatch(ddsroot, fullroot, columbia) || !AllPlaceable(sh, psh, columbia)
                   then Returned(NC_EDATADDS)
                   else if debug && !RunsThrough(After(sh, LinksOf(Nodes(sh) + SetOf(ws))), psh, columbia)
                   then Aborted else Returned(NC_NOERR)
    ensures HasLeafTwins(psh) ==>
              (end == Returned(NC_NOERR) <==>
                 && SimpleNodeMatch(ddsroot, fullroot, columbia) && AllPlaceable(sh, psh, columbia)
                 && (debug ==> NoneWider(sh, psh, columbia)))
    ensures end != Returned(NC_EDATADDS) ==>
              IsRepaired(old(LinksOf(Nodes(sh))), LinksOf(Nodes(sh) + SetOf(ws)), ddsroot, fullroot, m, ws,
                         old(ParentsOf(psh)), columbia)
    ensures end == Returned(NC_NOERR) && HasLeafTwins(psh) ==>
              HaveFittingBases(Nodes(sh) + SetOf(ws), m, psh, ddsroot, columbia)
    ensures AlikeTrees(sh, psh) ==> end == Returned(NC_NOERR) && ws == [] && AreInPlace(sh, psh)
  {
    ghost var a := LinksOf(Nodes(sh));
    LinkedHasShape(sh, Nodes(sh));
    NodesAllocated(psh);
    var err;
    err, ws, m := RepairFirst(ddsroot, fullroot, columbia, tree, sh, psh);
    end := Returned(err);
    if err == NC_NOERR {
      end := MapAfter(ddsroot, fullroot, columbia, debug, tree, sh, psh, a, m, ws, Nodes(sh) + SetOf(ws),
                      SetOf(tree.nodes));
    }
  }

  /** The repair, of a tree that has not been repaired before. */
  method RepairFirst(ddsroot: CDFnode, fullroot: CDFnode, columbia: bool, tree: CDFtree, ghost sh: Shape,
                     ghost psh: Shape)
    returns (err: ErrCode, ghost ws: seq<CDFnode>, ghost m: map<CDFnode, CDFnode>)
    requires sh.node == ddsroot && Linked(sh) && Distinct(sh) && PlainTree(sh)
    requires psh.node == fullroot && Linked(psh) && PlainGrids(psh)
    requires Nodes(sh) <= SetOf(tree.nodes) && SetOf(tree.nodes) !! Nodes(psh) && !tree.restructed
    modifies Nodes(sh)`container, Nodes(sh)`subnodes, tree`nodes
    ensures err == if SimpleNodeMatch(ddsroot, fullroot, columbia) && AllPlaceable(sh, psh, columbia)
                   then NC_NOERR else NC_EDATADDS
    ensures err == NC_NOERR ==>
              IsRepaired(old(LinksOf(Nodes(sh))), LinksOf(Nodes(sh) + SetOf(ws)), ddsroot, fullroot, m, ws,
                         old(ParentsOf(psh)), columbia)
    ensures Linked(psh) && ParentsOf(psh) == old(ParentsOf(psh))
    ensures SetOf(tree.nodes) == old(SetOf(tree.nodes)) + SetOf(ws) && forall w <- SetOf(ws) :: fresh(w)
    ensures AlikeTrees(sh, psh) ==> err == NC_NOERR && ws == []
  {
    err, ws, m := RestructTree(ddsroot, fullroot, columbia, tree, sh, psh);
    SetOfConcat(old(tree.nodes), ws);
  }

  lemma {:induction false} SetOfConcat(a: seq<CDFnode>, b: seq<CDFnode>)
    ensures SetOf(a + b) == SetOf(a) + SetOf(b)
  {
  }
}
