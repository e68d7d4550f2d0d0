/** When the map of a constrained tree onto the full tree respects parents. */
module Alignment {
  import opened Wrappers
  import opened Tree
  import opened Restruct
  import opened Mapping

  // ----- What a match reaches

  /** The nodes that get a base when the subtree con is mapped onto full. */
  function Reached(con: Shape, full: Shape, columbia: bool): set<CDFnode>
    decreases con, |con.kids| + 1, 0
  {
    {con.node} + ReachedKids(con, |con.kids|, full, columbia)
  }

  function ReachedKids(con: Shape, i: nat, full: Shape, columbia: bool): set<CDFnode>
    requires i <= |con.kids|
    decreases con, i, 0
  {
    if i == 0 then {}
    else ReachedKids(con, i - 1, full, columbia) + ReachedKid(con.kids[i - 1], full, |full.kids|, columbia)
  }

  /** The nodes of a child's subtree that get a base from one of the first j children of full. */
  function ReachedKid(kid: Shape, full: Shape, j: nat, columbia: bool): set<CDFnode>
    requires j <= |full.kids|
    decreases kid, |kid.kids| + 2, j
  {
    if j == 0 then {}
    else
      ReachedKid(kid, full, j - 1, columbia)
      + if SimpleNodeMatch(full.kids[j - 1].node, kid.node, columbia) then Reached(kid, full.kids[j - 1], columbia)
      else {}
  }

  lemma {:induction false} AssignKeys(con: Shape, full: Shape, a: Bases, columbia: bool)
    ensures Assign(con, full, a, columbia).Keys == a.Keys + Reached(con, full, columbia)
    decreases con, |con.kids| + 1, 0
  {
    AssignKidsKeys(con, |con.kids|, full, a[con.node := full.node], columbia);
  }

  lemma {:induction false} AssignKidsKeys(con: Shape, i: nat, full: Shape, a: Bases, columbia: bool)
    requires i <= |con.kids|
    ensures AssignKids(con, i, full, a, columbia).Keys == a.Keys + ReachedKids(con, i, full, columbia)
    decreases con, i, 0
  {
    if i > 0 {
      AssignKidsKeys(con, i - 1, full, a, columbia);
      AssignKidKeys(con.kids[i - 1], full, |full.kids|, AssignKids(con, i - 1, full, a, columbia), columbia);
    }
  }

  lemma {:induction false} AssignKidKeys(kid: Shape, full: Shape, j: nat, a: Bases, columbia: bool)
    requires j <= |full.kids|
    ensures AssignKid(kid, full, j, a, columbia).Keys == a.Keys + ReachedKid(kid, full, j, columbia)
    decreases kid, |kid.kids| + 2, j
  {
    if j > 0 {
      AssignKidKeys(kid, full, j - 1, a, columbia);
      AssignKeys(kid, full.kids[j - 1], AssignKid(kid, full, j - 1, a, columbia), columbia);
    }
  }

  // ----- Mapping onto a map is mapping, and then merging

  lemma {:induction false} MergeTwice(a: Bases, b: Bases, c: Bases)
    ensures (a + b) + c == a + (b + c)
  {
  }

  lemma {:induction false} AssignMerges(con: Shape, full: Shape, a: Bases, columbia: bool)
    ensures Assign(con, full, a, columbia) == a + Assign(con, full, map[], columbia)
    decreases con, |con.kids| + 1, 0
  {
    var one := map[con.node := full.node];
    AssignKidsMerge(con, |con.kids|, full, a[con.node := full.node], columbia);
    AssignKidsMerge(con, |con.kids|, full, one, columbia);
    assert map[][con.node := full.node] == one && a[con.node := full.node] == a + one;
    MergeTwice(a, one, AssignKids(con, |con.kids|, full, map[], columbia));
  }

  lemma {:induction false} AssignKidsMerge(con: Shape, i: nat, full: Shape, a: Bases, columbia: bool)
    requires i <= |con.kids|
    ensures AssignKids(con, i, full, a, columbia) == a + AssignKids(con, i, full, map[], columbia)
    decreases con, i, 0
  {
    if i > 0 {
      var kid, n := con.kids[i - 1], |full.kids|;
      var before := AssignKids(con, i - 1, full, map[], columbia);
      AssignKidsMerge(con, i - 1, full, a, columbia);
      AssignKidMerges(kid, full, n, a + before, columbia);
      AssignKidMerges(kid, full, n, before, columbia);
      MergeTwice(a, before, AssignKid(kid, full, n, map[], columbia));
    }
  }

  lemma {:induction false} AssignKidMerges(kid: Shape, full: Shape, j: nat, a: Bases, columbia: bool)
    requires j <= |full.kids|
    ensures AssignKid(kid, full, j, a, columbia) == a + AssignKid(kid, full, j, map[], columbia)
    decreases kid, |kid.kids| + 2, j
  {
    if j > 0 {
      var before := AssignKid(kid, full, j - 1, map[], columbia);
      AssignKidMerges(kid, full, j - 1, a, columbia);
      AssignMerges(kid, full.kids[j - 1], a + before, columbia);
      AssignMerges(kid, full.kids[j - 1], before, columbia);
      MergeTwice(a, before, Assign(kid, full.kids[j - 1], map[], columbia));
    }
  }

  // ----- Bases lie in the subtree that was mapped onto

  lemma {:induction false} AssignInside(con: Shape, full: Shape, a: Bases, columbia: bool, inside: set<CDFnode>)
    requires Nodes(full) <= inside && forall x <- a :: a[x] in inside
    ensures forall x <- Assign(con, full, a, columbia) :: Assign(con, full, a, columbia)[x] in inside
    decreases con, |con.kids| + 1, 0
  {
    AssignKidsInside(con, |con.kids|, full, a[con.node := full.node], columbia, inside);
  }

  lemma {:induction false} AssignKidsInside(con: Shape, i: nat, full: Shape, a: Bases, columbia: bool,
                                            inside: set<CDFnode>)
    requires i <= |con.kids|
    requires Nodes(full) <= inside && forall x <- a :: a[x] in inside
    ensures forall x <- AssignKids(con, i, full, a, columbia) :: AssignKids(con, i, full, a, columbia)[x] in inside
    decreases con, i, 0
  {
    if i > 0 {
      AssignKidsInside(con, i - 1, full, a, columbia, inside);
      AssignKidInside(con.kids[i - 1], full, |full.kids|, AssignKids(con, i - 1, full, a, columbia), columbia, inside);
    }
  }

  lemma {:induction false} AssignKidInside(kid: Shape, full: Shape, j: nat, a: Bases, columbia: bool,
                                           inside: set<CDFnode>)
    requires j <= |full.kids|
    requires NodesUpTo(full, j) <= inside && forall x <- a :: a[x] in inside
    ensures forall x <- AssignKid(kid, full, j, a, columbia) :: AssignKid(kid, full, j, a, columbia)[x] in inside
    decreases kid, |kid.kids| + 2, j
  {
    if j > 0 {
      AssignKidInside(kid, full, j - 1, a, columbia, inside);
      AssignInside(kid, full.kids[j - 1], AssignKid(kid, full, j - 1, a, columbia), columbia, inside);
    }
  }

  // ----- Respecting parents, and the condition for it

  /** c is a child of p in the tree. */
  predicate IsChild(full: Shape, p: CDFnode, c: CDFnode)
  {
    || (full.node == p && exists j :: 0 <= j < |full.kids| && full.kids[j].node == c)
    || exists j :: 0 <= j < |full.kids| && IsChild(full.kids[j], p, c)
  }

  /** The base of every mapped child is a child of its parent's base. */
  predicate Respects(con: Shape, full: Shape, b: Bases)
  {
    forall i :: 0 <= i < |con.kids| ==>
      && (con.kids[i].node in b ==> con.node in b && IsChild(full, b[con.node], b[con.kids[i].node]))
      && Respects(con.kids[i], full, b)
  }

  /** The last of the first n children of full that matches the node; the number of children when none does. */
  function LastMatch(node: CDFnode, full: Shape, n: nat, columbia: bool): (r: nat)
    requires n <= |full.kids|
    ensures r == |full.kids| || (r < n && SimpleNodeMatch(full.kids[r].node, node, columbia))
  {
    if n == 0 then |full.kids|
    else if SimpleNodeMatch(full.kids[n - 1].node, node, columbia) then n - 1
    else LastMatch(node, full, n - 1, columbia)
  }

  /** Whatever an earlier match of a child reaches, the last one reaches, and so on below. */
  predicate IsTidy(con: Shape, full: Shape, columbia: bool)
    decreases con
  {
    forall i :: 0 <= i < |con.kids| ==>
      var last := LastMatch(con.kids[i].node, full, |full.kids|, columbia);
      last < |full.kids| ==>
        && ReachedKid(con.kids[i], full, last, columbia) <= Reached(con.kids[i], full.kids[last], columbia)
        && IsTidy(con.kids[i], full.kids[last], columbia)
  }

  lemma {:induction false} ChildNodes(full: Shape, p: CDFnode, c: CDFnode)
    requires IsChild(full, p, c)
    ensures p in Nodes(full) && c in Nodes(full)
  {
    if full.node == p && exists j :: 0 <= j < |full.kids| && full.kids[j].node == c {
      var j :| 0 <= j < |full.kids| && full.kids[j].node == c;
      KidNodes(full, j);
    } else {
      var j :| 0 <= j < |full.kids| && IsChild(full.kids[j], p, c);
      ChildNodes(full.kids[j], p, c);
      KidNodes(full, j);
    }
  }

  /** The children of a node are those in the subtree that holds it. */
  lemma {:induction false} ChildWithin(full: Shape, j: nat, p: CDFnode, c: CDFnode)
    requires Distinct(full) && j < |full.kids| && p in Nodes(full.kids[j])
    ensures IsChild(full, p, c) <==> IsChild(full.kids[j], p, c)
  {
    if IsChild(full, p, c) {
      assert full.node != p;
      var k :| 0 <= k < |full.kids| && IsChild(full.kids[k], p, c);
      ChildNodes(full.kids[k], p, c);
      if k != j {
        KidsApart(full, k, j);
      }
    }
  }

  predicate Agree(a: Bases, b: Bases, x: CDFnode)
  {
    (x in a <==> x in b) && (x in a ==> a[x] == b[x])
  }

  /** Only the bases of the nodes themselves matter. */
  lemma {:induction false} RespectsAgree(con: Shape, full: Shape, a: Bases, b: Bases)
    requires forall x <- Nodes(con) :: Agree(a, b, x)
    ensures Respects(con, full, a) <==> Respects(con, full, b)
  {
    forall i | 0 <= i < |con.kids|
      ensures Agree(a, b, con.kids[i].node) && (Respects(con.kids[i], full, a) <==> Respects(con.kids[i], full, b))
    {
      KidNodes(con, i);
      RespectsAgree(con.kids[i], full, a, b);
    }
    assert Agree(a, b, con.node);
  }

  /** Bases inside one subtree respect the tree iff they respect that subtree. */
  lemma {:induction false} RespectsWithin(con: Shape, full: Shape, j: nat, b: Bases)
    requires Distinct(full) && j < |full.kids| && forall x <- b :: b[x] in Nodes(full.kids[j])
    ensures Respects(con, full, b) <==> Respects(con, full.kids[j], b)
  {
    forall i | 0 <= i < |con.kids|
      ensures Respects(con.kids[i], full, b) <==> Respects(con.kids[i], full.kids[j], b)
      ensures con.node in b && con.kids[i].node in b ==>
                (IsChild(full, b[con.node], b[con.kids[i].node]) <==>
                  IsChild(full.kids[j], b[con.node], b[con.kids[i].node]))
    {
      RespectsWithin(con.kids[i], full, j, b);
      if con.node in b && con.kids[i].node in b {
        ChildWithin(full, j, b[con.node], b[con.kids[i].node]);
      }
    }
  }

  // ----- A child and its matches

  lemma {:induction false} SplitAtLast(kid: Shape, full: Shape, n: nat, columbia: bool)
    requires n <= |full.kids|
    ensures var last, k := LastMatch(kid.node, full, n, columbia), AssignKid(kid, full, n, map[], columbia);
            k == if last == |full.kids| then map[]
                 else AssignKid(kid, full, last, map[], columbia) + Assign(kid, full.kids[last], map[], columbia)
  {
    if n > 0 {
      if SimpleNodeMatch(full.kids[n - 1].node, kid.node, columbia) {
        AssignMerges(kid, full.kids[n - 1], AssignKid(kid, full, n - 1, map[], columbia), columbia);
      } else {
        SplitAtLast(kid, full, n - 1, columbia);
      }
    }
  }

  /** In the map of a node with children, the nodes of one child's subtree have the bases that this child alone gets. */
  lemma {:induction false} KidPart(con: Shape, n: nat, full: Shape, a: Bases, columbia: bool, i: nat, x: CDFnode)
    requires Distinct(con) && i < n <= |con.kids| && x in Nodes(con.kids[i]) && x !in a
    ensures Agree(AssignKids(con, n, full, a, columbia), AssignKid(con.kids[i], full, |full.kids|, map[], columbia), x)
    decreases n
  {
    var before := AssignKids(con, n - 1, full, a, columbia);
    if n - 1 == i {
      UpToApart(con, i, i);
      AssignKidsElsewhere(con, i, full, a, columbia, x);
      AssignKidMerges(con.kids[i], full, |full.kids|, before, columbia);
    } else {
      KidPart(con, n - 1, full, a, columbia, i, x);
      KidsApart(con, i, n - 1);
      AssignKidElsewhere(con.kids[n - 1], full, |full.kids|, before, columbia, x);
    }
  }

  // ----- What is reached is closed under parents

  /** A set of nodes that holds none of a subtree unless it holds the node on top. */
  ghost predicate IsClosed(s: Shape, keys: set<CDFnode>)
  {
    (s.node in keys || Nodes(s) !! keys) && forall i :: 0 <= i < |s.kids| ==> IsClosed(s.kids[i], keys)
  }

  lemma {:induction false} ClosedElsewhere(s: Shape, keys: set<CDFnode>)
    requires Nodes(s) !! keys
    ensures IsClosed(s, keys)
  {
    forall i | 0 <= i < |s.kids|
      ensures IsClosed(s.kids[i], keys)
    {
      KidNodes(s, i);
      ClosedElsewhere(s.kids[i], keys);
    }
  }

  lemma {:induction false} ClosedUnion(s: Shape, a: set<CDFnode>, b: set<CDFnode>)
    requires IsClosed(s, a) && IsClosed(s, b)
    ensures IsClosed(s, a + b)
  {
    forall i | 0 <= i < |s.kids|
      ensures IsClosed(s.kids[i], a + b)
    {
      ClosedUnion(s.kids[i], a, b);
    }
  }

  lemma {:induction false} ReachedKidInside(kid: Shape, full: Shape, j: nat, columbia: bool)
    requires j <= |full.kids|
    ensures ReachedKid(kid, full, j, columbia) <= Nodes(kid)
  {
    forall x | x in ReachedKid(kid, full, j, columbia)
      ensures x in Nodes(kid)
    {
      AssignKidKeys(kid, full, j, map[], columbia);
      if x !in Nodes(kid) {
        AssignKidElsewhere(kid, full, j, map[], columbia, x);
      }
    }
  }

  lemma {:induction false} ReachedIsClosed(con: Shape, full: Shape, columbia: bool)
    requires Distinct(con)
    ensures IsClosed(con, Reached(con, full, columbia))
    decreases con, |con.kids| + 1, 0
  {
    forall i | 0 <= i < |con.kids|
      ensures IsClosed(con.kids[i], Reached(con, full, columbia))
    {
      ReachedKidsClosed(con, |con.kids|, full, columbia, i);
      ClosedElsewhere(con.kids[i], {con.node});
      ClosedUnion(con.kids[i], {con.node}, ReachedKids(con, |con.kids|, full, columbia));
    }
  }

  lemma {:induction false} ReachedKidsClosed(con: Shape, n: nat, full: Shape, columbia: bool, i: nat)
    requires Distinct(con) && n <= |con.kids| && i < |con.kids|
    ensures IsClosed(con.kids[i], ReachedKids(con, n, full, columbia))
    decreases con, n, 0
  {
    if n == 0 {
      ClosedElsewhere(con.kids[i], {});
    } else {
      var kid := con.kids[n - 1];
      ReachedKidsClosed(con, n - 1, full, columbia, i);
      if i == n - 1 {
        ReachedKidClosed(kid, full, |full.kids|, columbia);
      } else {
        ReachedKidInside(kid, full, |full.kids|, columbia);
        KidsApart(con, i, n - 1);
        ClosedElsewhere(con.kids[i], ReachedKid(kid, full, |full.kids|, columbia));
      }
      ClosedUnion(con.kids[i], ReachedKids(con, n - 1, full, columbia), ReachedKid(kid, full, |full.kids|, columbia));
    }
  }

  lemma {:induction false} ReachedKidClosed(kid: Shape, full: Shape, j: nat, columbia: bool)
    requires Distinct(kid) && j <= |full.kids|
    ensures IsClosed(kid, ReachedKid(kid, full, j, columbia))
    decreases kid, |kid.kids| + 2, j
  {
    if j == 0 {
      ClosedElsewhere(kid, {});
    } else {
      ReachedKidClosed(kid, full, j - 1, columbia);
      if SimpleNodeMatch(full.kids[j - 1].node, kid.node, columbia) {
        ReachedIsClosed(kid, full.kids[j - 1], columbia);
      } else {
        ClosedElsewhere(kid, {});
      }
      ClosedUnion(kid, ReachedKid(kid, full, j - 1, columbia),
                  if SimpleNodeMatch(full.kids[j - 1].node, kid.node, columbia)
                  then Reached(kid, full.kids[j - 1], columbia) else {});
    }
  }

  // ----- The exact condition

  /** A node x below s that only an earlier match reached keeps its base there, while s is mapped into the last match:
      somewhere between the two a parent is not respected. */
  lemma {:induction false} EarlierBreaks(s: Shape, full: Shape, last: nat, early: Bases, late: Bases, x: CDFnode)
    requires Distinct(full) && last < |full.kids|
    requires forall y <- late :: late[y] in Nodes(full.kids[last])
    requires forall y <- early :: early[y] !in Nodes(full.kids[last])
    requires IsClosed(s, early.Keys) && s.node in late && x in Nodes(s) && x in early && x !in late
    ensures !Respects(s, full, early + late)
  {
    var b := early + late;
    var k := KidOf(s, |s.kids|, x);
    var c := s.kids[k];
    assert IsClosed(c, early.Keys);
    if c.node in late {
      EarlierBreaks(c, full, last, early, late, x);
    } else if Respects(s, full, b) {
      assert c.node in early && b[c.node] == early[c.node] && b[s.node] == late[s.node];
      ChildWithin(full, last, b[s.node], b[c.node]);
      ChildNodes(full.kids[last], b[s.node], b[c.node]);
    }
  }

  /** For a child that matches: its subtree respects parents iff no earlier match reaches more than the last one, and
      the subtree below the last match is tidy. */
  lemma {:induction false} KidRespects(kid: Shape, full: Shape, columbia: bool)
    requires Distinct(kid) && Distinct(full)
    requires LastMatch(kid.node, full, |full.kids|, columbia) < |full.kids|
    ensures var last := LastMatch(kid.node, full, |full.kids|, columbia);
            var b := AssignKid(kid, full, |full.kids|, map[], columbia);
            && kid.node in b && b[kid.node] == full.kids[last].node
            && (Respects(kid, full, b) <==>
                  && ReachedKid(kid, full, last, columbia) <= Reached(kid, full.kids[last], columbia)
                  && IsTidy(kid, full.kids[last], columbia))
    decreases kid, 3
  {
    var last := LastMatch(kid.node, full, |full.kids|, columbia);
    var early, late := AssignKid(kid, full, last, map[], columbia), Assign(kid, full.kids[last], map[], columbia);
    SplitAtLast(kid, full, |full.kids|, columbia);
    AssignKidKeys(kid, full, last, map[], columbia);
    AssignKeys(kid, full.kids[last], map[], columbia);
    AssignInside(kid, full.kids[last], map[], columbia, Nodes(full.kids[last]));
    OwnBase(kid, full.kids[last], columbia);
    if ReachedKid(kid, full, last, columbia) <= Reached(kid, full.kids[last], columbia) {
      assert early + late == late;
      RespectsWithin(kid, full, last, late);
      RespectsIffTidy(kid, full.kids[last], columbia);
    } else {
      var x :| x in early && x !in late;
      AssignKidInside(kid, full, last, map[], columbia, NodesUpTo(full, last));
      UpToApart(full, last, last);
      ReachedKidInside(kid, full, last, columbia);
      ReachedKidClosed(kid, full, last, columbia);
      assert early.Keys == ReachedKid(kid, full, last, columbia);
      EarlierBreaks(kid, full, last, early, late, x);
    }
  }

  lemma {:induction false} OwnBase(con: Shape, full: Shape, columbia: bool)
    requires Distinct(con)
    ensures con.node in Assign(con, full, map[], columbia) && Assign(con, full, map[], columbia)[con.node] == full.node
  {
    NotBelow(con);
    AssignKidsElsewhere(con, |con.kids|, full, map[][con.node := full.node], columbia, con.node);
  }

  /** The map of a tree onto the full one respects parents iff whatever an earlier match of a child reaches the last one
      reaches too, at every level. */
  lemma {:induction false} RespectsIffTidy(con: Shape, full: Shape, columbia: bool)
    requires Distinct(con) && Distinct(full)
    ensures Respects(con, full, Assign(con, full, map[], columbia)) <==> IsTidy(con, full, columbia)
    decreases con, 2
  {
    var b := Assign(con, full, map[], columbia);
    OwnBase(con, full, columbia);
    forall i | 0 <= i < |con.kids|
      ensures var kid, last := con.kids[i], LastMatch(con.kids[i].node, full, |full.kids|, columbia);
              && (kid.node in b ==> IsChild(full, b[con.node], b[kid.node]))
              && (Respects(kid, full, b) <==> last < |full.kids| ==>
                    && ReachedKid(kid, full, last, columbia) <= Reached(kid, full.kids[last], columbia)
                    && IsTidy(kid, full.kids[last], columbia))
    {
      KidCase(con, full, columbia, i);
    }
  }

  lemma {:induction false} KidCase(con: Shape, full: Shape, columbia: bool, i: nat)
    requires Distinct(con) && Distinct(full) && i < |con.kids|
    ensures var b, kid := Assign(con, full, map[], columbia), con.kids[i];
            var last := LastMatch(kid.node, full, |full.kids|, columbia);
            && (kid.node in b ==> IsChild(full, full.node, b[kid.node]))
            && (Respects(kid, full, b) <==> last < |full.kids| ==>
                  && ReachedKid(kid, full, last, columbia) <= Reached(kid, full.kids[last], columbia)
                  && IsTidy(kid, full.kids[last], columbia))
    decreases con, 1
  {
    var b, kid := Assign(con, full, map[], columbia), con.kids[i];
    var own := AssignKid(kid, full, |full.kids|, map[], columbia);
    var last := LastMatch(kid.node, full, |full.kids|, columbia);
    forall x | x in Nodes(kid)
      ensures Agree(b, own, x)
    {
      KidPart(con, |con.kids|, full, map[][con.node := full.node], columbia, i, x);
    }
    RespectsAgree(kid, full, b, own);
    assert Agree(b, own, kid.node);
    if last < |full.kids| {
      KidRespects(kid, full, columbia);
    } else {
      SplitAtLast(kid, full, |full.kids|, columbia);
      RespectsNothing(kid, full);
    }
  }

  lemma {:induction false} RespectsNothing(con: Shape, full: Shape)
    ensures Respects(con, full, map[])
  {
    forall i | 0 <= i < |con.kids|
      ensures Respects(con.kids[i], full, map[])
    {
      RespectsNothing(con.kids[i], full);
    }
  }

  // ----- Counterparts

  /** What stands at the same place of the full tree, going down through the last matching children. */
  function Counterpart(con: Shape, full: Shape, path: seq<nat>, columbia: bool): Option<Shape>
    requires IsPath(con, path)
    decreases |path|
  {
    if path == [] then Some(full)
    else
      var kid := con.kids[path[0]];
      var last := LastMatch(kid.node, full, |full.kids|, columbia);
      if last < |full.kids| then Counterpart(kid, full.kids[last], path[1..], columbia) else None
  }

  /** In a tidy map the nodes below a child have the bases that the child's last match gives them. */
  lemma {:induction false} KidHasLast(con: Shape, full: Shape, columbia: bool, i: nat, x: CDFnode)
    requires Distinct(con) && IsTidy(con, full, columbia) && i < |con.kids| && x in Nodes(con.kids[i])
    ensures var b, last := Assign(con, full, map[], columbia), LastMatch(con.kids[i].node, full, |full.kids|, columbia);
            if last == |full.kids| then x !in b else Agree(b, Assign(con.kids[i], full.kids[last], map[], columbia), x)
  {
    var kid, last := con.kids[i], LastMatch(con.kids[i].node, full, |full.kids|, columbia);
    KidPart(con, |con.kids|, full, map[][con.node := full.node], columbia, i, x);
    SplitAtLast(kid, full, |full.kids|, columbia);
    if last < |full.kids| {
      AssignKidKeys(kid, full, last, map[], columbia);
      AssignKeys(kid, full.kids[last], map[], columbia);
    }
  }

  /** When the map respects parents, the node at a place is mapped to what stands at the same place of the full tree,
      and is not mapped when nothing does. */
  lemma {:induction false} MappedToCounterpart(con: Shape, full: Shape, columbia: bool, path: seq<nat>)
    requires Distinct(con) && IsPath(con, path) && IsTidy(con, full, columbia)
    ensures IsMappedAt(con, full, path, columbia)
    decreases |path|
  {
    if path == [] {
      OwnBase(con, full, columbia);
    } else {
      var kid, last := con.kids[path[0]], LastMatch(con.kids[path[0]].node, full, |full.kids|, columbia);
      AlongEnds(kid, path[1..]);
      KidHasLast(con, full, columbia, path[0], At(kid, path[1..]).node);
      if last < |full.kids| {
        MappedToCounterpart(kid, full.kids[last], columbia, path[1..]);
      }
    }
  }

  /** The node at a place is mapped to what stands at the same place of the full tree. */
  predicate IsMappedAt(con: Shape, full: Shape, path: seq<nat>, columbia: bool)
    requires IsPath(con, path)
  {
    var b, n, c := Assign(con, full, map[], columbia), At(con, path).node, Counterpart(con, full, path, columbia);
    (n in b <==> c.Some?) && (c.Some? ==> b[n] == c.value.node)
  }

  /** One step down from a place. */
  lemma {:induction false} StepDown(con: Shape, path: seq<nat>, i: nat)
    requires IsPath(con, path) && i < |At(con, path).kids|
    ensures IsPath(con, path + [i]) && At(con, path + [i]) == At(con, path).kids[i]
    decreases |path|
  {
    if path == [] {
      assert (path + [i])[1..] == [];
    } else {
      assert (path + [i])[1..] == path[1..] + [i];
      StepDown(con.kids[path[0]], path[1..], i);
    }
  }

  /** The counterpart of a child is a child of its parent's counterpart, and matches it. */
  lemma {:induction false} CounterpartsAlign(con: Shape, full: Shape, columbia: bool, path: seq<nat>, i: nat)
    requires IsPath(con, path) && i < |At(con, path).kids| && IsPath(con, path + [i])
    requires Counterpart(con, full, path + [i], columbia).Some?
    ensures Counterpart(con, full, path, columbia).Some?
    ensures var parent := Counterpart(con, full, path, columbia).value;
            var child := Counterpart(con, full, path + [i], columbia).value;
            && SimpleNodeMatch(child.node, At(con, path).kids[i].node, columbia)
            && IsChild(full, parent.node, child.node)
    decreases |path|
  {
    if path == [] {
      assert (path + [i])[1..] == [];
    } else {
      assert (path + [i])[1..] == path[1..] + [i];
      var kid := con.kids[path[0]];
      CounterpartsAlign(kid, full.kids[LastMatch(kid.node, full, |full.kids|, columbia)], columbia, path[1..], i);
    }
  }

  lemma {:induction false} RespectsByPlaces(con: Shape, full: Shape, columbia: bool, path: seq<nat>, sub: Shape)
    requires IsPath(con, path) && sub == At(con, path)
    requires forall p: seq<nat> {:trigger IsMappedAt(con, full, p, columbia)} :: IsPath(con, p) ==>
               IsMappedAt(con, full, p, columbia)
    ensures Respects(sub, full, Assign(con, full, map[], columbia))
    decreases sub
  {
    var b := Assign(con, full, map[], columbia);
    forall i | 0 <= i < |sub.kids|
      ensures Respects(sub.kids[i], full, b)
      ensures sub.kids[i].node in b ==> sub.node in b && IsChild(full, b[sub.node], b[sub.kids[i].node])
    {
      StepDown(con, path, i);
      RespectsByPlaces(con, full, columbia, path + [i], sub.kids[i]);
      assert IsMappedAt(con, full, path, columbia) && IsMappedAt(con, full, path + [i], columbia);
      if sub.kids[i].node in b {
        CounterpartsAlign(con, full, columbia, path, i);
      }
    }
  }

  /** Every node is mapped to what stands at its place of the full tree, or to nothing when nothing does, iff the map
      respects parents. */
  lemma {:induction false} MappedIffRespects(con: Shape, full: Shape, columbia: bool)
    requires Distinct(con) && Distinct(full)
    ensures (forall p: seq<nat> {:trigger IsMappedAt(con, full, p, columbia)} :: IsPath(con, p) ==>
               IsMappedAt(con, full, p, columbia))
       <==> Respects(con, full, Assign(con, full, map[], columbia))
  {
    RespectsIffTidy(con, full, columbia);
    if IsTidy(con, full, columbia) {
      forall p: seq<nat> | IsPath(con, p)
        ensures IsMappedAt(con, full, p, columbia)
      {
        MappedToCounterpart(con, full, columbia, p);
      }
    }
    if forall p: seq<nat> {:trigger IsMappedAt(con, full, p, columbia)} :: IsPath(con, p) ==>
         IsMappedAt(con, full, p, columbia)
    {
      RespectsByPlaces(con, full, columbia, [], con);
    }
  }

  // ----- Trees as they are parsed

  /** Siblings of the same name are leaves, as only the array and a map of a grid can be; and no dataset is inside. */
  predicate HasLeafTwins(full: Shape)
  {
    && (forall i, j :: 0 <= i < j < |full.kids| && full.kids[i].node.ocname == full.kids[j].node.ocname ==>
          full.kids[i].kids == [] && full.kids[j].kids == [])
    && forall j :: 0 <= j < |full.kids| ==> full.kids[j].node.nctype != Dataset && HasLeafTwins(full.kids[j])
  }

  /** Before the last of several matches only the child itself is reached. */
  lemma {:induction false} TwinsReachOne(kid: Shape, full: Shape, j: nat, last: nat, columbia: bool)
    requires HasLeafTwins(full) && j <= last < |full.kids| && SimpleNodeMatch(full.kids[last].node, kid.node, columbia)
    ensures ReachedKid(kid, full, j, columbia) <= {kid.node}
    decreases j
  {
    if j > 0 {
      TwinsReachOne(kid, full, j - 1, last, columbia);
      if SimpleNodeMatch(full.kids[j - 1].node, kid.node, columbia) {
        assert full.kids[j - 1].kids == [];
        NothingBelow(kid, |kid.kids|, full.kids[j - 1], columbia);
      }
    }
  }

  lemma {:induction false} NothingBelow(con: Shape, n: nat, full: Shape, columbia: bool)
    requires full.kids == [] && n <= |con.kids|
    ensures ReachedKids(con, n, full, columbia) == {}
  {
    if n > 0 {
      NothingBelow(con, n - 1, full, columbia);
    }
  }

  lemma {:induction false} TwinsAreTidy(con: Shape, full: Shape, columbia: bool)
    requires HasLeafTwins(full)
    ensures IsTidy(con, full, columbia)
  {
    forall i | 0 <= i < |con.kids|
      ensures var last := LastMatch(con.kids[i].node, full, |full.kids|, columbia);
              last < |full.kids| ==>
                && ReachedKid(con.kids[i], full, last, columbia) <= Reached(con.kids[i], full.kids[last], columbia)
                && IsTidy(con.kids[i], full.kids[last], columbia)
    {
      var last := LastMatch(con.kids[i].node, full, |full.kids|, columbia);
      if last < |full.kids| {
        TwinsReachOne(con.kids[i], full, last, last, columbia);
        TwinsAreTidy(con.kids[i], full.kids[last], columbia);
      }
    }
  }

  /** On the trees that the parser of descriptions lets through, the map respects parents. */
  lemma {:induction false} ParsedTreesRespect(con: Shape, full: Shape, columbia: bool)
    requires Distinct(con) && Distinct(full) && HasLeafTwins(full)
    ensures Respects(con, full, Assign(con, full, map[], columbia))
  {
    TwinsAreTidy(con, full, columbia);
    RespectsIffTidy(con, full, columbia);
  }
}
