/** Grid repair: matching a constrained tree against the full one, and wrapping fields that came without their grid. */
module Restruct {
  import opened Wrappers
  import opened Tree

  /** Same name, arity and type, except that a grid may stand for a structure. With the columbia flag set a dataset
      matches anything. */
  predicate SimpleNodeMatch(node1: CDFnode?, node2: CDFnode?, columbia: bool)
  {
    if node1 == null || node2 == null then false
    else if columbia && node1.nctype == Dataset then true
    else
      && node1.ocname == node2.ocname && |node1.dimset0| == |node2.dimset0|
      && (node1.nctype == node2.nctype
          || (node1.nctype == Grid && node2.nctype == Structure) || (node1.nctype == Structure && node2.nctype == Grid))
      && (node1.nctype == Atomic ==> node1.etype == node2.etype)
  }

  // ----- When a tree can be matched

  /** The first child from position i on with the name; the number of children when there is none. */
  function FirstNamed(psh: Shape, name: string, i: nat): (r: nat)
    requires i <= |psh.kids|
    ensures i <= r <= |psh.kids|
    ensures r < |psh.kids| ==> psh.kids[r].node.ocname == name
    ensures forall j :: i <= j < r ==> psh.kids[j].node.ocname != name
    decreases |psh.kids| - i
  {
    if i == |psh.kids| || psh.kids[i].node.ocname == name then i else FirstNamed(psh, name, i + 1)
  }

  /** The first field of a grid, from position j on and below limit, that matches the node. */
  function FieldFrom(node: CDFnode, grid: Shape, j: nat, limit: nat, columbia: bool): Option<CDFnode>
    decreases limit - j
  {
    if j >= limit || j >= |grid.kids| then None
    else if SimpleNodeMatch(node, grid.kids[j].node, columbia) then Some(grid.kids[j].node)
    else FieldFrom(node, grid, j + 1, limit, columbia)
  }

  /** The first such field over the grids from position i on. No more fields of a grid are looked at than the parent has
      children. */
  function GridFieldFrom(node: CDFnode, psh: Shape, i: nat, columbia: bool): Option<CDFnode>
    requires i <= |psh.kids|
    decreases |psh.kids| - i
  {
    if i == |psh.kids| then None
    else
      var field := if psh.kids[i].node.nctype == Grid
        then FieldFrom(node, psh.kids[i], 0, |psh.kids|, columbia) else None;
      if field.Some? then field else GridFieldFrom(node, psh, i + 1, columbia)
  }

  /** Field f of grid g matches the node. */
  predicate IsGridField(node: CDFnode, psh: Shape, g: nat, f: nat, columbia: bool)
  {
    && g < |psh.kids| && psh.kids[g].node.nctype == Grid && f < |psh.kids[g].kids|
    && SimpleNodeMatch(node, psh.kids[g].kids[f].node, columbia)
  }

  lemma {:induction false} FieldFound(node: CDFnode, grid: Shape, j: nat, limit: nat, columbia: bool) returns (f: nat)
    requires FieldFrom(node, grid, j, limit, columbia).Some?
    ensures f < limit && f < |grid.kids| && SimpleNodeMatch(node, grid.kids[f].node, columbia)
    ensures FieldFrom(node, grid, j, limit, columbia).value == grid.kids[f].node
    ensures j <= f && forall k :: j <= k < f ==> !SimpleNodeMatch(node, grid.kids[k].node, columbia)
    decreases limit - j
  {
    if SimpleNodeMatch(node, grid.kids[j].node, columbia) {
      f := j;
    } else {
      f := FieldFound(node, grid, j + 1, limit, columbia);
    }
  }

  /** The field that is taken is the first that matches in the first grid that has one within reach. */
  lemma {:induction false} GridFieldFound(node: CDFnode, psh: Shape, i: nat, columbia: bool) returns (g: nat, f: nat)
    requires i <= |psh.kids| && GridFieldFrom(node, psh, i, columbia).Some?
    ensures IsGridField(node, psh, g, f, columbia) && f < |psh.kids|
    ensures GridFieldFrom(node, psh, i, columbia).value == psh.kids[g].kids[f].node
    ensures i <= g && forall k :: 0 <= k < f ==> !IsGridField(node, psh, g, k, columbia)
    ensures forall h, k :: i <= h < g && 0 <= k < |psh.kids| ==> !IsGridField(node, psh, h, k, columbia)
    decreases |psh.kids| - i
  {
    if psh.kids[i].node.nctype == Grid && FieldFrom(node, psh.kids[i], 0, |psh.kids|, columbia).Some? {
      g := i;
      f := FieldFound(node, psh.kids[i], 0, |psh.kids|, columbia);
    } else {
      g, f := GridFieldFound(node, psh, i + 1, columbia);
      forall k | 0 <= k < |psh.kids|
        ensures !IsGridField(node, psh, i, k, columbia)
      {
        if IsGridField(node, psh, i, k, columbia) {
          FieldMissed(node, psh.kids[i], 0, |psh.kids|, k, columbia);
        }
      }
    }
  }

  lemma {:induction false} FieldMissed(node: CDFnode, grid: Shape, j: nat, limit: nat, f: nat, columbia: bool)
    requires FieldFrom(node, grid, j, limit, columbia).None? && j <= f < limit && f < |grid.kids|
    ensures !SimpleNodeMatch(node, grid.kids[f].node, columbia)
    decreases limit - j
  {
    if j < f {
      FieldMissed(node, grid, j + 1, limit, f, columbia);
    }
  }

  /** A matching field of a grid is missed only if it stands beyond as many fields as the parent has children. */
  lemma {:induction false} GridFieldMissed(node: CDFnode, psh: Shape, i: nat, g: nat, f: nat, columbia: bool)
    requires i <= g && IsGridField(node, psh, g, f, columbia) && GridFieldFrom(node, psh, i, columbia).None?
    ensures |psh.kids| <= f
    decreases |psh.kids| - i
  {
    if i < g {
      GridFieldMissed(node, psh, i + 1, g, f, columbia);
    } else if f < |psh.kids| {
      FieldMissed(node, psh.kids[g], 0, |psh.kids|, f, columbia);
    }
  }

  /** A grid field is found iff one that matches stands, in its grid, at a position below the number of the parent's
      children. */
  lemma {:induction false} GridFieldExists(node: CDFnode, psh: Shape, columbia: bool)
    ensures GridFieldFrom(node, psh, 0, columbia).Some? <==> HasGridField(node, psh, columbia)
  {
    if GridFieldFrom(node, psh, 0, columbia).Some? {
      var g, f := GridFieldFound(node, psh, 0, columbia);
    } else {
      forall g, f | 0 <= g < |psh.kids| && 0 <= f < |psh.kids|
        ensures !IsGridField(node, psh, g, f, columbia)
      {
        if IsGridField(node, psh, g, f, columbia) {
          GridFieldMissed(node, psh, 0, g, f, columbia);
        }
      }
    }
  }

  type Repairs = seq<(CDFnode, CDFnode)>

  /** The repairs for the first n subtrees of a node, in order: none for a child that matches its namesake, beyond those
      below it; one for a child that only matches a grid field; and no plan at all when some child matches neither. */
  function PlanUpTo(sh: Shape, n: nat, psh: Shape, columbia: bool): Option<Repairs>
    requires n <= |sh.kids|
    decreases sh, n
  {
    if n == 0 then Some([])
    else
      var before, kid := PlanUpTo(sh, n - 1, psh, columbia), PlanKid(sh.kids[n - 1], psh, columbia);
      if before.Some? && kid.Some? then Some(before.value + kid.value) else None
  }

  function PlanKid(kid: Shape, psh: Shape, columbia: bool): Option<Repairs>
    decreases kid, |kid.kids| + 1
  {
    var p := FirstNamed(psh, kid.node.ocname, 0);
    if p < |psh.kids| && SimpleNodeMatch(kid.node, psh.kids[p].node, columbia) then
      PlanUpTo(kid, |kid.kids|, psh.kids[p], columbia)
    else
      var field := GridFieldFrom(kid.node, psh, 0, columbia);
      if field.Some? then Some([(kid.node, field.value)]) else None
  }

  lemma {:induction false} OneUnplaced(sh: Shape, n: nat, k: nat, psh: Shape, columbia: bool)
    requires k < n <= |sh.kids| && PlanKid(sh.kids[k], psh, columbia).None?
    ensures PlanUpTo(sh, n, psh, columbia).None?
  {
    if k < n - 1 {
      OneUnplaced(sh, n - 1, k, psh, columbia);
    }
  }

  // ----- When there is a plan, in terms of the two trees

  /** The child of the same name, the first there is, matches. */
  predicate HasNamesake(node: CDFnode, psh: Shape, columbia: bool)
  {
    var p := FirstNamed(psh, node.ocname, 0);
    p < |psh.kids| && SimpleNodeMatch(node, psh.kids[p].node, columbia)
  }

  /** A matching field stands in some grid at a position below the number of the parent's children. */
  predicate HasGridField(node: CDFnode, psh: Shape, columbia: bool)
  {
    exists g, f :: 0 <= g < |psh.kids| && 0 <= f < |psh.kids| && IsGridField(node, psh, g, f, columbia)
  }

  /** The pattern node for a place, as long as every node on the way has a matching namesake. */
  function Followed(sh: Shape, psh: Shape, path: seq<nat>, columbia: bool): Option<Shape>
    requires IsPath(sh, path)
    decreases |path|
  {
    if path == [] then Some(psh)
    else
      var kid := sh.kids[path[0]];
      if HasNamesake(kid.node, psh, columbia)
      then Followed(kid, psh.kids[FirstNamed(psh, kid.node.ocname, 0)], path[1..], columbia)
      else None
  }

  /** Child i at a place that is followed has a matching namesake or a grid field. */
  predicate IsPlaceable(sh: Shape, psh: Shape, path: seq<nat>, i: nat, columbia: bool)
  {
    IsPath(sh, path) && i < |At(sh, path).kids| && Followed(sh, psh, path, columbia).Some? ==>
      var node, parent := At(sh, path).kids[i].node, Followed(sh, psh, path, columbia).value;
      HasNamesake(node, parent, columbia) || HasGridField(node, parent, columbia)
  }

  ghost predicate AllPlaceable(sh: Shape, psh: Shape, columbia: bool)
  {
    forall path: seq<nat>, i: nat {:trigger IsPlaceable(sh, psh, path, i, columbia)} ::
      IsPlaceable(sh, psh, path, i, columbia)
  }

  lemma {:induction false} PlanPlaces(sh: Shape, psh: Shape, path: seq<nat>, i: nat, columbia: bool)
    requires PlanUpTo(sh, |sh.kids|, psh, columbia).Some?
    ensures IsPlaceable(sh, psh, path, i, columbia)
    decreases |path|
  {
    if IsPath(sh, path) && i < |At(sh, path).kids| && Followed(sh, psh, path, columbia).Some? {
      var k := if path == [] then i else path[0];
      if PlanKid(sh.kids[k], psh, columbia).None? {
        OneUnplaced(sh, |sh.kids|, k, psh, columbia);
      }
      if path == [] {
        GridFieldExists(sh.kids[i].node, psh, columbia);
      } else {
        PlanPlaces(sh.kids[k], psh.kids[FirstNamed(psh, sh.kids[k].node.ocname, 0)], path[1..], i, columbia);
      }
    }
  }

  lemma {:induction false} KidPlaceable(sh: Shape, psh: Shape, k: nat, columbia: bool)
    requires AllPlaceable(sh, psh, columbia) && k < |sh.kids| && HasNamesake(sh.kids[k].node, psh, columbia)
    ensures AllPlaceable(sh.kids[k], psh.kids[FirstNamed(psh, sh.kids[k].node.ocname, 0)], columbia)
  {
    var kid, pkid := sh.kids[k], psh.kids[FirstNamed(psh, sh.kids[k].node.ocname, 0)];
    forall path: seq<nat>, i: nat
      ensures IsPlaceable(kid, pkid, path, i, columbia)
    {
      var down := [k] + path;
      assert down[1..] == path;
      assert IsPlaceable(sh, psh, down, i, columbia);
    }
  }

  lemma {:induction false} PlacesPlan(sh: Shape, n: nat, psh: Shape, columbia: bool)
    requires AllPlaceable(sh, psh, columbia) && n <= |sh.kids|
    ensures PlanUpTo(sh, n, psh, columbia).Some?
    decreases sh, n
  {
    if n > 0 {
      var kid := sh.kids[n - 1];
      PlacesPlan(sh, n - 1, psh, columbia);
      assert IsPlaceable(sh, psh, [], n - 1, columbia);
      if HasNamesake(kid.node, psh, columbia) {
        KidPlaceable(sh, psh, n - 1, columbia);
        PlacesPlan(kid, |kid.kids|, psh.kids[FirstNamed(psh, kid.node.ocname, 0)], columbia);
      } else {
        GridFieldExists(kid.node, psh, columbia);
      }
    }
  }

  /** There is a plan iff at every place that can be followed by name each child has a matching namesake or a grid field
      within reach of the search. */
  lemma {:induction false} PlanExists(sh: Shape, psh: Shape, columbia: bool)
    ensures PlanUpTo(sh, |sh.kids|, psh, columbia).Some? <==> AllPlaceable(sh, psh, columbia)
  {
    if PlanUpTo(sh, |sh.kids|, psh, columbia).Some? {
      forall path: seq<nat>, i: nat
        ensures IsPlaceable(sh, psh, path, i, columbia)
      {
        PlanPlaces(sh, psh, path, i, columbia);
      }
    }
    if AllPlaceable(sh, psh, columbia) {
      PlacesPlan(sh, |sh.kids|, psh, columbia);
    }
  }

  /** A dataset with one grid of array and map: a constrained tree with the map alone cannot be repaired, since the
      dataset has one child and the map is the second field. */
  lemma {:induction false} MapOutOfReach(root: CDFnode, node: CDFnode, proot: CDFnode, grid: CDFnode, arr: CDFnode,
                                         mp: CDFnode)
    requires grid.nctype == Grid && arr.nctype == Atomic && mp.nctype == Atomic
    requires SimpleNodeMatch(node, mp, false) && node.nctype == Atomic
    requires node.ocname != arr.ocname && node.ocname != grid.ocname
    ensures var psh := Shape(proot, [Shape(grid, [Shape(arr, []), Shape(mp, [])])]);
            IsGridField(node, psh, 0, 1, false) && PlanUpTo(Shape(root, [Shape(node, [])]), 1, psh, false).None?
  {
    var g := Shape(grid, [Shape(arr, []), Shape(mp, [])]);
    var psh, kid := Shape(proot, [g]), Shape(node, []);
    assert FirstNamed(psh, node.ocname, 1) == 1 && FirstNamed(psh, node.ocname, 0) == 1;
    assert FieldFrom(node, g, 1, 1, false).None? && FieldFrom(node, g, 0, 1, false).None?;
    assert GridFieldFrom(node, psh, 1, false).None? && GridFieldFrom(node, psh, 0, false).None?;
    OneUnplaced(Shape(root, [kid]), 1, 0, psh, false);
  }

  // ----- Well-formed trees

  /** Atomic nodes are leaves, and only the root is a dataset. */
  predicate PlainTree(sh: Shape)
  {
    && (sh.node.nctype == Atomic ==> sh.kids == [])
    && forall k :: 0 <= k < |sh.kids| ==> sh.kids[k].node.nctype != Dataset && PlainTree(sh.kids[k])
  }

  /** Grids are not dimensioned, and hold atomic fields only. */
  predicate PlainGrids(psh: Shape)
  {
    && (psh.node.nctype == Grid ==>
          psh.node.dimset0 == [] && forall k :: 0 <= k < |psh.kids| ==> psh.kids[k].node.nctype == Atomic)
    && forall k :: 0 <= k < |psh.kids| ==> PlainGrids(psh.kids[k])
  }

  // ----- Counterparts in the pattern

  predicate IsPending(n: CDFnode, repairs: Repairs)
  {
    exists i :: 0 <= i < |repairs| && repairs[i].0 == n
  }

  /** The map gives the parent of every node of the pattern. */
  ghost predicate AreParents(psh: Shape, pattern: map<CDFnode, CDFnode?>)
    reads Nodes(psh)`container
  {
    forall n <- Nodes(psh) :: n in pattern && pattern[n] == n.container
  }

  /** A counterpart lies below the parent's counterpart. */
  predicate IsPlaced(pn: CDFnode, parent: CDFnode, pattern: map<CDFnode, CDFnode?>)
  {
    pn in pattern && pattern[pn] == parent
  }

  /** A counterpart lies in a grid, without dimensions, below the parent's counterpart. */
  predicate IsDisplaced(pn: CDFnode, parent: CDFnode, pattern: map<CDFnode, CDFnode?>)
  {
    && pn in pattern && pattern[pn] != null && pattern[pn].nctype == Grid && pattern[pn].dimset0 == []
    && IsPlaced(pattern[pn], parent, pattern)
  }

  predicate IsFitting(n: CDFnode, pn: CDFnode, parent: CDFnode, repairs: Repairs, pattern: map<CDFnode, CDFnode?>,
                      columbia: bool)
  {
    && SimpleNodeMatch(n, pn, columbia)
    && if IsPending(n, repairs) then IsDisplaced(pn, parent, pattern) else IsPlaced(pn, parent, pattern)
  }

  /** The repairs pair different nodes with their counterparts. */
  predicate IsPlan(repairs: Repairs, m: map<CDFnode, CDFnode>)
  {
    && (forall i :: 0 <= i < |repairs| ==> repairs[i].0 in m && m[repairs[i].0] == repairs[i].1)
    && (forall i, j :: 0 <= i < j < |repairs| ==> repairs[i].0 != repairs[j].0)
  }

  /** The counterparts of the nodes of a subtree that hangs below a node with counterpart parent. */
  ghost predicate SubtreeFits(kid: Shape, parent: CDFnode, m: map<CDFnode, CDFnode>, repairs: Repairs,
                              pattern: map<CDFnode, CDFnode?>, columbia: bool)
    reads Nodes(kid)`container
  {
    && m.Keys == Nodes(kid) && IsPlan(repairs, m)
    && IsFitting(kid.node, m[kid.node], parent, repairs, pattern, columbia)
    && forall n :: n in Nodes(kid) && n != kid.node ==>
         && n.container != null && n.container in m.Keys
         && IsFitting(n, m[n], m[n.container], repairs, pattern, columbia)
  }

  /** The counterparts of a node and of the subtrees of its first i children. */
  ghost predicate KidsFit(sh: Shape, i: nat, parent: CDFnode, m: map<CDFnode, CDFnode>, repairs: Repairs,
                          pattern: map<CDFnode, CDFnode?>, columbia: bool)
    requires i <= |sh.kids|
    reads NodesUpTo(sh, i)`container
  {
    && m.Keys == {sh.node} + NodesUpTo(sh, i) && m[sh.node] == parent && IsPlan(repairs, m)
    && !IsPending(sh.node, repairs)
    && forall n :: n in NodesUpTo(sh, i) ==>
         && n.container != null && n.container in m.Keys
         && IsFitting(n, m[n], m[n.container], repairs, pattern, columbia)
  }

  lemma {:induction false} PendingConcat(n: CDFnode, a: Repairs, b: Repairs)
    ensures IsPending(n, a + b) <==> IsPending(n, a) || IsPending(n, b)
  {
    if IsPending(n, b) {
      var i :| 0 <= i < |b| && b[i].0 == n;
      assert (a + b)[|a| + i].0 == n;
    }
    if IsPending(n, a) {
      var i :| 0 <= i < |a| && a[i].0 == n;
      assert (a + b)[i].0 == n;
    }
  }

  lemma {:induction false} UpToApart(sh: Shape, n: nat, k: nat)
    requires Distinct(sh) && n <= k < |sh.kids|
    ensures NodesUpTo(sh, n) !! Nodes(sh.kids[k])
  {
    if n > 0 {
      UpToApart(sh, n - 1, k);
    }
  }

  lemma {:induction false} PlansJoin(a: Repairs, b: Repairs, m: map<CDFnode, CDFnode>, mk: map<CDFnode, CDFnode>)
    requires IsPlan(a, m) && IsPlan(b, mk) && m.Keys !! mk.Keys
    ensures IsPlan(a + b, m + mk)
  {
    forall i | 0 <= i < |a + b|
      ensures (a + b)[i].0 in m + mk && (m + mk)[(a + b)[i].0] == (a + b)[i].1
    {
      if i < |a| {
        assert a[i].0 in m;
      } else {
        assert b[i - |a|].0 in mk;
      }
    }
    forall i, j | 0 <= i < j < |a + b|
      ensures (a + b)[i].0 != (a + b)[j].0
    {
      if i < |a| <= j {
        assert a[i].0 in m && b[j - |a|].0 in mk;
      }
    }
  }

  /** A node outside the plan's map is not pending. */
  lemma {:induction false} NotPending(n: CDFnode, repairs: Repairs, m: map<CDFnode, CDFnode>)
    requires IsPlan(repairs, m) && n !in m
    ensures !IsPending(n, repairs)
  {
  }

  /** One more child. */
  lemma {:induction false} OneMoreKid(sh: Shape, i: nat, parent: CDFnode, m: map<CDFnode, CDFnode>, a: Repairs,
                                      mk: map<CDFnode, CDFnode>, b: Repairs, pattern: map<CDFnode, CDFnode?>,
                                      columbia: bool)
    requires Linked(sh) && Distinct(sh) && i < |sh.kids|
    requires KidsFit(sh, i, parent, m, a, pattern, columbia)
    requires SubtreeFits(sh.kids[i], parent, mk, b, pattern, columbia)
    ensures KidsFit(sh, i + 1, parent, m + mk, a + b, pattern, columbia)
  {
    UpToApart(sh, i, i);
    PlansJoin(a, b, m, mk);
    PendingConcat(sh.node, a, b);
    NotPending(sh.node, b, mk);
    forall n | n in NodesUpTo(sh, i + 1)
      ensures n.container != null && n.container in (m + mk).Keys
      ensures IsFitting(n, (m + mk)[n], (m + mk)[n.container], a + b, pattern, columbia)
    {
      PendingConcat(n, a, b);
      if n in NodesUpTo(sh, i) {
        NotPending(n, b, mk);
        assert n.container in m && n.container !in mk;
      } else {
        NotPending(n, a, m);
        if n == sh.kids[i].node {
          assert n.container == sh.node && sh.node !in mk;
        }
      }
    }
  }

  /** All the children make a subtree. */
  lemma {:induction false} KidsMakeSubtree(sh: Shape, pnode: CDFnode, parent: CDFnode, m: map<CDFnode, CDFnode>,
                                           repairs: Repairs, pattern: map<CDFnode, CDFnode?>, columbia: bool)
    requires Distinct(sh) && KidsFit(sh, |sh.kids|, pnode, m, repairs, pattern, columbia)
    requires SimpleNodeMatch(sh.node, pnode, columbia) && IsPlaced(pnode, parent, pattern)
    ensures SubtreeFits(sh, parent, m, repairs, pattern, columbia)
  {
  }

  lemma {:induction false} NoKidsYet(sh: Shape, parent: CDFnode, pattern: map<CDFnode, CDFnode?>, columbia: bool)
    ensures KidsFit(sh, 0, parent, map[sh.node := parent], [], pattern, columbia)
  {
  }

  /** A leaf that matches a grid field. */
  lemma {:induction false} LeafFits(kid: Shape, field: CDFnode, parent: CDFnode, pattern: map<CDFnode, CDFnode?>,
                                    columbia: bool)
    requires kid.kids == [] && SimpleNodeMatch(kid.node, field, columbia) && IsDisplaced(field, parent, pattern)
    ensures SubtreeFits(kid, parent, map[kid.node := field], [(kid.node, field)], pattern, columbia)
  {
    assert [(kid.node, field)][0].0 == kid.node;
  }

  lemma {:induction false} FieldIsDisplaced(node: CDFnode, psh: Shape, pattern: map<CDFnode, CDFnode?>, columbia: bool)
    requires Linked(psh) && PlainGrids(psh) && AreParents(psh, pattern)
    requires GridFieldFrom(node, psh, 0, columbia).Some?
    ensures var field := GridFieldFrom(node, psh, 0, columbia).value;
            IsDisplaced(field, psh.node, pattern) && field.nctype == Atomic && SimpleNodeMatch(node, field, columbia)
  {
    var g, f := GridFieldFound(node, psh, 0, columbia);
    KidNodes(psh, g);
    KidNodes(psh.kids[g], f);
  }

  /** The plan for a child gives every node of its subtree a counterpart. */
  lemma {:induction false} PlanKidFits(kid: Shape, psh: Shape, pattern: map<CDFnode, CDFnode?>, columbia: bool)
    returns (m: map<CDFnode, CDFnode>)
    requires Linked(kid) && Distinct(kid) && PlainTree(kid) && kid.node.nctype != Dataset
    requires Linked(psh) && PlainGrids(psh) && AreParents(psh, pattern)
    requires PlanKid(kid, psh, columbia).Some?
    ensures SubtreeFits(kid, psh.node, m, PlanKid(kid, psh, columbia).value, pattern, columbia)
    decreases kid, |kid.kids| + 1
  {
    var p := FirstNamed(psh, kid.node.ocname, 0);
    if p < |psh.kids| && SimpleNodeMatch(kid.node, psh.kids[p].node, columbia) {
      KidNodes(psh, p);
      m := PlanFits(kid, |kid.kids|, psh.kids[p], pattern, columbia);
      KidsMakeSubtree(kid, psh.kids[p].node, psh.node, m, PlanKid(kid, psh, columbia).value, pattern, columbia);
    } else {
      FieldIsDisplaced(kid.node, psh, pattern, columbia);
      var field := GridFieldFrom(kid.node, psh, 0, columbia).value;
      m := map[kid.node := field];
      LeafFits(kid, field, psh.node, pattern, columbia);
    }
  }

  lemma {:induction false} PlanFits(sh: Shape, n: nat, psh: Shape, pattern: map<CDFnode, CDFnode?>, columbia: bool)
    returns (m: map<CDFnode, CDFnode>)
    requires Linked(sh) && Distinct(sh) && PlainTree(sh) && n <= |sh.kids|
    requires Linked(psh) && PlainGrids(psh) && AreParents(psh, pattern)
    requires PlanUpTo(sh, n, psh, columbia).Some?
    ensures KidsFit(sh, n, psh.node, m, PlanUpTo(sh, n, psh, columbia).value, pattern, columbia)
    decreases sh, n
  {
    if n == 0 {
      m := map[sh.node := psh.node];
      NoKidsYet(sh, psh.node, pattern, columbia);
    } else {
      var before := PlanFits(sh, n - 1, psh, pattern, columbia);
      var mk := PlanKidFits(sh.kids[n - 1], psh, pattern, columbia);
      m := before + mk;
      OneMoreKid(sh, n - 1, psh.node, before, PlanUpTo(sh, n - 1, psh, columbia).value,
                 mk, PlanKid(sh.kids[n - 1], psh, columbia).value, pattern, columbia);
    }
  }

  // ----- Matching the trees

  method FindNamed(patternparent: CDFnode, name: string, ghost psh: Shape) returns (matchnode: CDFnode?)
    requires psh.node == patternparent && Linked(psh)
    ensures var p := FirstNamed(psh, name, 0);
            matchnode == if p < |psh.kids| then psh.kids[p].node else null
  {
    matchnode := null;
    var i := 0;
    while i < |patternparent.subnodes|
      invariant 0 <= i <= |patternparent.subnodes| && matchnode == null
      invariant FirstNamed(psh, name, 0) == FirstNamed(psh, name, i)
    {
      var patternsubnode := patternparent.subnodes[i];
      if patternsubnode.ocname == name {
        matchnode := patternsubnode;
        break;
      }
      i := i + 1;
    }
  }

  /** The first matching field of one grid, looking at no more than limit fields. */
  method FindField(node: CDFnode, grid: CDFnode, limit: nat, columbia: bool, ghost gsh: Shape)
    returns (field: Option<CDFnode>)
    requires gsh.node == grid && Linked(gsh)
    ensures field == FieldFrom(node, gsh, 0, limit, columbia)
  {
    field := None;
    var j := 0;
    while j < limit
      invariant 0 <= j <= limit && field == None
      invariant FieldFrom(node, gsh, 0, limit, columbia) == FieldFrom(node, gsh, j, limit, columbia)
    {
      var gridfield: CDFnode? := if j < |grid.subnodes| then grid.subnodes[j] else null;
      if SimpleNodeMatch(node, gridfield, columbia) {
        field := Some(gridfield);
        break;
      }
      j := j + 1;
    }
  }

  /** Look for the node among the fields of the grids below a pattern node. */
  method FindGridField(node: CDFnode, patternparent: CDFnode, columbia: bool, ghost psh: Shape)
    returns (field: Option<CDFnode>)
    requires psh.node == patternparent && Linked(psh)
    ensures field == GridFieldFrom(node, psh, 0, columbia)
  {
    field := None;
    NodesAllocated(psh);
    var i := 0;
    while i < |patternparent.subnodes|
      invariant 0 <= i <= |patternparent.subnodes| && field == None
      invariant GridFieldFrom(node, psh, 0, columbia) == GridFieldFrom(node, psh, i, columbia)
    {
      assert Linked(psh);
      var subtemp := patternparent.subnodes[i];
      if subtemp.nctype == Grid {
        field := FindField(node, subtemp, |patternparent.subnodes|, columbia, psh.kids[i]);
        if field.Some? {
          break;
        }
      }
      i := i + 1;
    }
  }

  /** Match the children of two matching nodes, and collect the repairs. */
  method RestructR(dxdparent: CDFnode, patternparent: CDFnode, columbia: bool, ghost sh: Shape, ghost psh: Shape)
    returns (repairs: Option<Repairs>)
    requires sh.node == dxdparent && Linked(sh) && psh.node == patternparent && Linked(psh)
    ensures repairs == PlanUpTo(sh, |sh.kids|, psh, columbia)
    decreases sh, 1
  {
    NodesAllocated(sh);
    NodesAllocated(psh);
    var list := [];
    var index := 0;
    while index < |dxdparent.subnodes|
      invariant 0 <= index <= |dxdparent.subnodes| == |sh.kids|
      invariant PlanUpTo(sh, index, psh, columbia) == Some(list)
    {
      assert Linked(sh) && Linked(psh);
      var more := PlaceKid(dxdparent.subnodes[index], patternparent, columbia, sh.kids[index], psh);
      if more.None? {
        OneUnplaced(sh, |sh.kids|, index, psh, columbia);
        return None;
      }
      list := list + more.value;
      index := index + 1;
    }
    repairs := Some(list);
  }

  /** Match one child: with its namesake, or else with a grid field. */
  method PlaceKid(dxdsubnode: CDFnode, patternparent: CDFnode, columbia: bool, ghost kid: Shape, ghost psh: Shape)
    returns (repairs: Option<Repairs>)
    requires kid.node == dxdsubnode && Linked(kid) && psh.node == patternparent && Linked(psh)
    ensures repairs == PlanKid(kid, psh, columbia)
    decreases kid, 2
  {
    NodesAllocated(kid);
    NodesAllocated(psh);
    var matchnode := FindNamed(patternparent, dxdsubnode.ocname, psh);
    assert Linked(kid) && Linked(psh);
    if SimpleNodeMatch(dxdsubnode, matchnode, columbia) {
      repairs := RestructR(dxdsubnode, matchnode, columbia, kid, psh.kids[FirstNamed(psh, dxdsubnode.ocname, 0)]);
    } else {
      var field := FindGridField(dxdsubnode, patternparent, columbia, psh);
      repairs := if field.Some? then Some([(dxdsubnode, field.value)]) else None;
    }
  }
}
