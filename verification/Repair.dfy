/** Carrying out grid repairs, and what holds of the repaired tree. */
module Repair {
  import opened Wrappers
  import opened Tree
  import opened Restruct
  import opened Alike

  // ----- The links of a set of nodes, as a value

  datatype Links = Links(up: map<CDFnode, CDFnode?>, down: map<CDFnode, seq<CDFnode>>)

  ghost function LinksOf(nodes: set<CDFnode>): (l: Links)
    reads nodes`container, nodes`subnodes
    ensures l.up.Keys == nodes && l.down.Keys == nodes
  {
    Links(map n | n in nodes :: n.container, map n | n in nodes :: n.subnodes)
  }

  /** Child i of a node is in the tree, below the root, and knows its parent. */
  predicate ChildLinked(l: Links, root: CDFnode, n: CDFnode, i: nat)
    requires n in l.down && i < |l.down[n]|
  {
    l.down[n][i] in l.up && l.down[n][i] != root && l.up[l.down[n][i]] == n
  }

  predicate ParentLinked(l: Links, n: CDFnode)
    requires n in l.up
  {
    l.up[n] != null && l.up[n] in l.down && n in l.down[l.up[n]]
  }

  /** Every child knows its parent, every node but the root is a child of its parent, and no child is listed twice. */
  ghost predicate Mutual(l: Links, root: CDFnode)
  {
    && l.up.Keys == l.down.Keys && root in l.up
    && (forall n, i {:trigger ChildLinked(l, root, n, i)} :: n in l.down && 0 <= i < |l.down[n]| ==>
          ChildLinked(l, root, n, i))
    && (forall n, i, j :: n in l.down && 0 <= i < j < |l.down[n]| ==> l.down[n][i] != l.down[n][j])
    && (forall n {:trigger ParentLinked(l, n)} :: n in l.up && n != root ==> ParentLinked(l, n))
  }

  /** The node has a counterpart below that of its parent, or is pending. */
  predicate FitsAt(l: Links, m: map<CDFnode, CDFnode>, repairs: Repairs, pattern: map<CDFnode, CDFnode?>,
                   columbia: bool, n: CDFnode)
    requires n in m && n in l.up
  {
    l.up[n] != null && l.up[n] in m && IsFitting(n, m[n], m[l.up[n]], repairs, pattern, columbia)
  }

  ghost predicate AllFit(l: Links, root: CDFnode, proot: CDFnode, m: map<CDFnode, CDFnode>, repairs: Repairs,
                         pattern: map<CDFnode, CDFnode?>, columbia: bool)
  {
    && m.Keys == l.up.Keys && root in m && m[root] == proot && SimpleNodeMatch(root, proot, columbia)
    && IsPlan(repairs, m) && !IsPending(root, repairs)
    && forall n {:trigger FitsAt(l, m, repairs, pattern, columbia, n)} :: n in m && n != root ==>
         FitsAt(l, m, repairs, pattern, columbia, n)
  }

  lemma {:induction false} LinkedNode(sh: Shape, x: CDFnode)
    requires Linked(sh) && Distinct(sh) && x in Nodes(sh)
    ensures forall i :: 0 <= i < |x.subnodes| ==>
              x.subnodes[i] in Nodes(sh) && x.subnodes[i] != sh.node && x.subnodes[i].container == x
    ensures forall i, j :: 0 <= i < j < |x.subnodes| ==> x.subnodes[i] != x.subnodes[j]
    ensures x != sh.node ==> x.container != null && x.container in Nodes(sh) && x in x.container.subnodes
    decreases sh
  {
    if x == sh.node {
      forall i | 0 <= i < |x.subnodes|
        ensures x.subnodes[i] in Nodes(sh) && x.subnodes[i] != sh.node && x.subnodes[i].container == x
      {
        KidNodes(sh, i);
      }
    } else {
      var k := KidOf(sh, |sh.kids|, x);
      KidNodes(sh, k);
      LinkedNode(sh.kids[k], x);
    }
  }

  lemma {:induction false} LinkedIsMutual(sh: Shape)
    requires Linked(sh) && Distinct(sh)
    ensures Mutual(LinksOf(Nodes(sh)), sh.node)
  {
    var l := LinksOf(Nodes(sh));
    forall n | n in l.up
      ensures forall i :: 0 <= i < |l.down[n]| ==> ChildLinked(l, sh.node, n, i)
      ensures forall i, j :: 0 <= i < j < |l.down[n]| ==> l.down[n][i] != l.down[n][j]
      ensures n != sh.node ==> ParentLinked(l, n)
    {
      LinkedNode(sh, n);
    }
  }

  // ----- One repair, on links

  predicate CanSplice(l: Links, node: CDFnode, parent: CDFnode, index: nat, w: CDFnode)
  {
    && node in l.up && l.up[node] == parent && parent in l.down && index < |l.down[parent]|
    && l.down[parent][index] == node
    && w !in l.up && w !in l.down
  }

  /** Put w around a node, in its place. */
  function Splice(l: Links, node: CDFnode, parent: CDFnode, index: nat, w: CDFnode): Links
    requires CanSplice(l, node, parent, index, w)
  {
    Links(l.up[node := w][w := parent], l.down[parent := l.down[parent][index := w]][w := [node]])
  }

  lemma {:induction false} SplicedLinks(l: Links, b: Links, node: CDFnode, parent: CDFnode, index: nat, w: CDFnode)
    requires CanSplice(l, node, parent, index, w) && l.up.Keys == l.down.Keys
    requires b.up.Keys == l.up.Keys + {w} && b.down.Keys == l.down.Keys + {w}
    requires forall n :: n in l.up ==> b.up[n] == if n == node then w else l.up[n]
    requires forall n :: n in l.down ==> b.down[n] == if n == parent then l.down[n][index := w] else l.down[n]
    requires b.up[w] == parent && b.down[w] == [node]
    ensures b == Splice(l, node, parent, index, w)
  {
    var c := Splice(l, node, parent, index, w);
    assert b.up.Keys == c.up.Keys && b.down.Keys == c.down.Keys;
    assert b.up == c.up;
    assert b.down == c.down;
  }

  lemma {:induction false} SpliceKeepsChild(l: Links, root: CDFnode, node: CDFnode, parent: CDFnode, index: nat,
                                            w: CDFnode, n: CDFnode, i: nat)
    requires Mutual(l, root) && node != root && CanSplice(l, node, parent, index, w)
    requires n in l.down && i < |l.down[n]|
    ensures var b := Splice(l, node, parent, index, w);
            && |b.down[n]| == |l.down[n]| && ChildLinked(b, root, n, i)
            && forall j :: i < j < |b.down[n]| ==> b.down[n][i] != b.down[n][j]
  {
    var b := Splice(l, node, parent, index, w);
    assert ChildLinked(l, root, n, i);
    if n == parent && i != index {
      assert l.down[n][i] != node;
    }
    forall j | i < j < |b.down[n]|
      ensures b.down[n][i] != b.down[n][j]
    {
      assert l.down[n][i] != l.down[n][j] && ChildLinked(l, root, n, j);
    }
  }

  lemma {:induction false} SpliceKeepsParent(l: Links, root: CDFnode, node: CDFnode, parent: CDFnode, index: nat,
                                             w: CDFnode, n: CDFnode)
    requires Mutual(l, root) && node != root && CanSplice(l, node, parent, index, w) && n in l.up && n != root
    ensures ParentLinked(Splice(l, node, parent, index, w), n)
  {
    var b := Splice(l, node, parent, index, w);
    assert ParentLinked(l, n);
    if n == node {
      assert b.down[w][0] == node;
    } else {
      var j :| 0 <= j < |l.down[l.up[n]]| && l.down[l.up[n]][j] == n;
      assert b.down[l.up[n]][j] == n;
    }
  }

  lemma {:induction false} SpliceKeepsMutual(l: Links, root: CDFnode, node: CDFnode, parent: CDFnode, index: nat,
                                             w: CDFnode)
    requires Mutual(l, root) && node != root && CanSplice(l, node, parent, index, w)
    ensures Mutual(Splice(l, node, parent, index, w), root)
  {
    var b := Splice(l, node, parent, index, w);
    forall n, i | n in b.down && 0 <= i < |b.down[n]|
      ensures ChildLinked(b, root, n, i)
      ensures forall j :: i < j < |b.down[n]| ==> b.down[n][i] != b.down[n][j]
    {
      if n != w {
        SpliceKeepsChild(l, root, node, parent, index, w, n, i);
      }
    }
    forall n | n in b.up && n != root
      ensures ParentLinked(b, n)
    {
      if n != w {
        SpliceKeepsParent(l, root, node, parent, index, w, n);
      } else {
        assert b.down[parent][index] == w;
      }
    }
  }

  /** Taking the first repair off a plan makes its node, and no other, cease to be pending. */
  lemma {:induction false} FirstIsDone(m: map<CDFnode, CDFnode>, repairs: Repairs, n: CDFnode)
    requires IsPlan(repairs, m) && repairs != []
    ensures IsPending(repairs[0].0, repairs)
    ensures IsPending(n, repairs[1..]) <==> IsPending(n, repairs) && n != repairs[0].0
  {
    if IsPending(n, repairs) && n != repairs[0].0 {
      var i :| 0 <= i < |repairs| && repairs[i].0 == n;
      assert repairs[1..][i - 1].0 == n;
    }
  }

  /** A wrapper has its grid for a counterpart, and then the node in it fits. */
  lemma {:induction false} SpliceFitsAt(l: Links, root: CDFnode, proot: CDFnode, m: map<CDFnode, CDFnode>,
                                        repairs: Repairs, pattern: map<CDFnode, CDFnode?>, columbia: bool,
                                        parent: CDFnode, index: nat, w: CDFnode, n: CDFnode)
    requires AllFit(l, root, proot, m, repairs, pattern, columbia) && repairs != []
    requires CanSplice(l, repairs[0].0, parent, index, w)
    requires w.nctype == Structure && w.dimset0 == []
    requires repairs[0].1 in pattern && pattern[repairs[0].1] != null
    requires w.ocname == pattern[repairs[0].1].ocname
    requires n == w || (n in m && n != root)
    ensures FitsAt(Splice(l, repairs[0].0, parent, index, w), m[w := pattern[repairs[0].1]], repairs[1..], pattern,
                   columbia, n)
  {
    assert n in m ==> FitsAt(l, m, repairs, pattern, columbia, n);
    assert repairs[0].0 in m && IsPending(repairs[0].0, repairs);
    assert FitsAt(l, m, repairs, pattern, columbia, repairs[0].0);
    FirstIsDone(m, repairs, n);
    FirstIsDone(m, repairs, repairs[0].0);
    NotPending(w, repairs, m);
    assert repairs[0].0 in m && m[repairs[0].0] == repairs[0].1;
  }

  lemma {:induction false} SpliceKeepsFit(l: Links, root: CDFnode, proot: CDFnode, m: map<CDFnode, CDFnode>,
                                          repairs: Repairs, pattern: map<CDFnode, CDFnode?>, columbia: bool,
                                          parent: CDFnode, index: nat, w: CDFnode)
    requires AllFit(l, root, proot, m, repairs, pattern, columbia) && repairs != []
    requires CanSplice(l, repairs[0].0, parent, index, w)
    requires w.nctype == Structure && w.dimset0 == []
    requires repairs[0].1 in pattern && pattern[repairs[0].1] != null
    requires w.ocname == pattern[repairs[0].1].ocname
    ensures AllFit(Splice(l, repairs[0].0, parent, index, w), root, proot, m[w := pattern[repairs[0].1]], repairs[1..],
                   pattern, columbia)
  {
    var b, m', rest := Splice(l, repairs[0].0, parent, index, w), m[w := pattern[repairs[0].1]], repairs[1..];
    FirstIsDone(m, repairs, root);
    assert IsPlan(rest, m') by {
      forall i | 0 <= i < |rest|
        ensures rest[i].0 in m' && m'[rest[i].0] == rest[i].1
      {
        assert rest[i] == repairs[i + 1] && repairs[i + 1].0 in m;
      }
    }
    forall n | n in m' && n != root
      ensures FitsAt(b, m', rest, pattern, columbia, n)
    {
      SpliceFitsAt(l, root, proot, m, repairs, pattern, columbia, parent, index, w, n);
    }
  }

  // ----- All repairs together, on links

  ghost predicate IsRewiredAt(a: Links, b: Links, added: set<CDFnode>, n: CDFnode)
    requires n in a.up && n in a.down && n in b.up && n in b.down
  {
    && (b.up[n] == a.up[n] || (b.up[n] != null && b.up[n] in added && b.up[n] in b.up && b.up[b.up[n]] == a.up[n]))
    && |b.down[n]| == |a.down[n]|
    && forall i :: 0 <= i < |a.down[n]| ==>
         || b.down[n][i] == a.down[n][i]
         || (b.down[n][i] in added && b.down[n][i] in b.down && b.down[b.down[n][i]] == [a.down[n][i]])
  }

  /** The links after repairs: every link is as it was, or leads through one added node with a single child. */
  ghost predicate IsRewired(a: Links, b: Links, added: set<CDFnode>)
  {
    && a.up.Keys == a.down.Keys && b.up.Keys == a.up.Keys + added && b.down.Keys == b.up.Keys && a.up.Keys !! added
    && (forall n {:trigger IsRewiredAt(a, b, added, n)} :: n in a.up ==> IsRewiredAt(a, b, added, n))
    && (forall w :: w in added ==> |b.down[w]| == 1 && b.down[w][0] in a.up)
  }

  lemma {:induction false} NothingRewired(a: Links)
    requires a.up.Keys == a.down.Keys
    ensures IsRewired(a, a, {})
  {
  }

  lemma {:induction false} SpliceKeepsRewiredAt(a: Links, b: Links, added: set<CDFnode>, node: CDFnode, parent: CDFnode,
                                                index: nat, w: CDFnode, n: CDFnode)
    requires IsRewired(a, b, added) && CanSplice(b, node, parent, index, w)
    requires node in a.up && b.up[node] == a.up[node] && parent in a.up
    requires index < |a.down[parent]| && a.down[parent][index] == node
    requires n in a.up
    ensures IsRewiredAt(a, Splice(b, node, parent, index, w), added + {w}, n)
  {
    assert IsRewiredAt(a, b, added, n);
    assert w !in added && parent !in added && node !in added;
  }

  /** One more node, that has not been wrapped yet, is wrapped. */
  lemma {:induction false} SpliceKeepsRewired(a: Links, b: Links, added: set<CDFnode>, node: CDFnode, parent: CDFnode,
                                              index: nat, w: CDFnode)
    requires IsRewired(a, b, added) && CanSplice(b, node, parent, index, w)
    requires node in a.up && b.up[node] == a.up[node] && parent in a.up
    ensures index < |a.down[parent]| && a.down[parent][index] == node
    ensures IsRewired(a, Splice(b, node, parent, index, w), added + {w})
  {
    assert IsRewiredAt(a, b, added, parent) && node !in added;
    forall n | n in a.up
      ensures IsRewiredAt(a, Splice(b, node, parent, index, w), added + {w}, n)
    {
      SpliceKeepsRewiredAt(a, b, added, node, parent, index, w, n);
    }
    forall v | v in added + {w}
      ensures |Splice(b, node, parent, index, w).down[v]| == 1 && Splice(b, node, parent, index, w).down[v][0] in a.up
    {
      assert v != w ==> v != parent;
    }
  }

  // ----- A run of repairs, on links

  function IndexOf(s: seq<CDFnode>, x: CDFnode): (i: nat)
    requires x in s
    ensures i < |s| && s[i] == x && x !in s[..i]
  {
    if s[0] == x then 0 else
      var i := 1 + IndexOf(s[1..], x);
      assert s[..i] == [s[0]] + s[1..][..i - 1];
      i
  }

  /** The node can be wrapped where it stands. */
  predicate CanWrap(l: Links, node: CDFnode, w: CDFnode)
  {
    && node in l.up && l.up[node] != null && l.up[node] in l.down && node in l.down[l.up[node]]
    && w !in l.up && w !in l.down
  }

  function WrapLinks(l: Links, node: CDFnode, w: CDFnode): Links
  {
    if CanWrap(l, node, w) then Splice(l, node, l.up[node], IndexOf(l.down[l.up[node]], node), w) else l
  }

  /** The links after as many repairs as there are nodes in ws, the ones that the repairs made. */
  function Repaired(l: Links, repairs: Repairs, ws: seq<CDFnode>): Links
    requires |ws| <= |repairs|
  {
    if ws == [] then l
    else
      var k := |ws| - 1;
      WrapLinks(Repaired(l, repairs, ws[..k]), repairs[k].0, ws[k])
  }

  function SetOf(ws: seq<CDFnode>): set<CDFnode>
  {
    set w | w in ws
  }

  /** Each new node was put around the next node to repair, and made after the grid around that node's counterpart. */
  predicate IsRun(l: Links, repairs: Repairs, ws: seq<CDFnode>, pattern: map<CDFnode, CDFnode?>)
  {
    && |ws| <= |repairs|
    && (ws == [] ||
        var k := |ws| - 1;
        && IsRun(l, repairs, ws[..k], pattern) && CanWrap(Repaired(l, repairs, ws[..k]), repairs[k].0, ws[k])
        && IsField(repairs[k].1, pattern) && IsWrapper(ws[k], pattern[repairs[k].1]))
  }

  predicate IsField(field: CDFnode, pattern: map<CDFnode, CDFnode?>)
  {
    field in pattern && pattern[field] != null && pattern[field].nctype == Grid
  }

  predicate IsBelow(l: Links, root: CDFnode, repairs: Repairs, i: nat)
    requires i < |repairs|
  {
    repairs[i].0 in l.up && repairs[i].0 != root
  }

  predicate Differ(repairs: Repairs, i: nat, j: nat)
    requires i < j < |repairs|
  {
    repairs[i].0 != repairs[j].0
  }

  /** Different nodes below the root are to be repaired. */
  ghost predicate IsRepairable(l: Links, root: CDFnode, repairs: Repairs)
  {
    && Mutual(l, root)
    && (forall i {:trigger IsBelow(l, root, repairs, i)} :: 0 <= i < |repairs| ==> IsBelow(l, root, repairs, i))
    && (forall i, j {:trigger Differ(repairs, i, j)} :: 0 <= i < j < |repairs| ==> Differ(repairs, i, j))
  }

  lemma {:induction false} SetOfSnoc(ws: seq<CDFnode>)
    requires ws != []
    ensures SetOf(ws) == SetOf(ws[..|ws| - 1]) + {ws[|ws| - 1]}
  {
    assert ws == ws[..|ws| - 1] + [ws[|ws| - 1]];
  }

  /** After any number of repairs the links are mutual. */
  lemma {:induction false} RepairedMutual(l: Links, root: CDFnode, repairs: Repairs, ws: seq<CDFnode>,
                                          pattern: map<CDFnode, CDFnode?>)
    requires IsRepairable(l, root, repairs) && IsRun(l, repairs, ws, pattern)
    ensures Mutual(Repaired(l, repairs, ws), root) && Repaired(l, repairs, ws).up.Keys == l.up.Keys + SetOf(ws)
    decreases |ws|
  {
    if ws == [] {
      assert SetOf(ws) == {};
    } else {
      var k := |ws| - 1;
      var before, node := Repaired(l, repairs, ws[..k]), repairs[k].0;
      RepairedMutual(l, root, repairs, ws[..k], pattern);
      SetOfSnoc(ws);
      assert IsBelow(l, root, repairs, k);
      SpliceKeepsMutual(before, root, node, before.up[node], IndexOf(before.down[before.up[node]], node), ws[k]);
    }
  }

  /** A node still to be repaired has not moved. */
  lemma {:induction false} NotMovedYet(l: Links, root: CDFnode, repairs: Repairs, ws: seq<CDFnode>,
                                       pattern: map<CDFnode, CDFnode?>, j: nat)
    requires IsRepairable(l, root, repairs) && IsRun(l, repairs, ws, pattern) && |ws| <= j < |repairs|
    ensures repairs[j].0 in l.up && repairs[j].0 in Repaired(l, repairs, ws).up
    ensures Repaired(l, repairs, ws).up[repairs[j].0] == l.up[repairs[j].0]
    decreases |ws|
  {
    assert IsBelow(l, root, repairs, j);
    if ws != [] {
      var k := |ws| - 1;
      NotMovedYet(l, root, repairs, ws[..k], pattern, j);
      assert Differ(repairs, k, j);
    }
  }

  /** After any number of repairs every link is as it was, or leads through one of the nodes that were made. */
  lemma {:induction false} RepairedRewired(l: Links, root: CDFnode, repairs: Repairs, ws: seq<CDFnode>,
                                           pattern: map<CDFnode, CDFnode?>)
    requires IsRepairable(l, root, repairs) && IsRun(l, repairs, ws, pattern)
    ensures IsRewired(l, Repaired(l, repairs, ws), SetOf(ws))
    decreases |ws|
  {
    if ws == [] {
      NothingRewired(l);
      assert SetOf(ws) == {};
    } else {
      var k := |ws| - 1;
      var before, node := Repaired(l, repairs, ws[..k]), repairs[k].0;
      RepairedRewired(l, root, repairs, ws[..k], pattern);
      NotMovedYet(l, root, repairs, ws[..k], pattern, k);
      SetOfSnoc(ws);
      assert IsBelow(l, root, repairs, k) && ParentLinked(l, node);
      var parent := before.up[node];
      SpliceKeepsRewired(l, before, SetOf(ws[..k]), node, parent, IndexOf(before.down[parent], node), ws[k]);
    }
  }

  /** After any number of repairs the nodes fit, but for those still to be repaired. */
  lemma {:induction false} RepairedFit(l: Links, root: CDFnode, proot: CDFnode, m0: map<CDFnode, CDFnode>,
                                       repairs: Repairs, pattern: map<CDFnode, CDFnode?>, columbia: bool,
                                       ws: seq<CDFnode>)
    returns (m: map<CDFnode, CDFnode>)
    requires IsRun(l, repairs, ws, pattern)
    requires AllFit(l, root, proot, m0, repairs, pattern, columbia)
    ensures AllFit(Repaired(l, repairs, ws), root, proot, m, repairs[|ws|..], pattern, columbia)
    ensures forall w <- ws :: w in m && IsWrapper(w, m[w])
    decreases |ws|
  {
    if ws == [] {
      m := m0;
      assert repairs[0..] == repairs;
    } else {
      var k := |ws| - 1;
      var before, node := Repaired(l, repairs, ws[..k]), repairs[k].0;
      var m1 := RepairedFit(l, root, proot, m0, repairs, pattern, columbia, ws[..k]);
      var rest := repairs[k..];
      assert rest[0] == repairs[k] && rest[1..] == repairs[|ws|..];
      SpliceKeepsFit(before, root, proot, m1, rest, pattern, columbia, before.up[node],
                     IndexOf(before.down[before.up[node]], node), ws[k]);
      m := m1[ws[k] := pattern[repairs[k].1]];
      forall w | w in ws
        ensures w in m && IsWrapper(w, m[w])
      {
        if w != ws[k] {
          var i :| 0 <= i < |ws| && ws[i] == w;
          assert w == ws[..k][i];
        }
      }
    }
  }

  // ----- Repairing the tree

  method FindIn(parent: CDFnode, child: CDFnode) returns (i: int)
    ensures -1 <= i < |parent.subnodes|
    ensures child in parent.subnodes <==> 0 <= i
    ensures 0 <= i ==> i == IndexOf(parent.subnodes, child)
  {
    i := 0;
    while i < |parent.subnodes|
      invariant 0 <= i <= |parent.subnodes| && child !in parent.subnodes[..i]
    {
      if parent.subnodes[i] == child {
        return;
      }
      i := i + 1;
    }
    i := -1;
  }

  /** A structure that stands in for a grid. */
  predicate IsWrapper(w: CDFnode, grid: CDFnode)
  {
    && grid.nctype == Grid
    && w.nc_virtual && w.nctype == Structure && w.dimset0 == [] && w.pattern == grid && w.ocname == grid.ocname
  }

  method MakeNewStruct(node: CDFnode, patternnode: CDFnode) returns (newstruct: CDFnode)
    requires patternnode.nctype == Grid
    modifies node`container
    ensures fresh(newstruct) && IsWrapper(newstruct, patternnode)
    ensures newstruct.nctype == Structure && newstruct.nc_virtual && newstruct.ocname == patternnode.ocname
    ensures newstruct.pattern == patternnode && newstruct.dimset0 == []
    ensures newstruct.container == old(node.container) && newstruct.subnodes == [node] && node.container == newstruct
  {
    newstruct := new CDFnode(patternnode.ocname, Structure, NO_DIM, true, patternnode, node.container);
    node.container := newstruct;
    newstruct.subnodes := newstruct.subnodes + [node];
  }

  /** Put a new structure around a node, in its place among its parent's children. */
  method StructWrap(node: CDFnode, parent: CDFnode, parentindex: nat, patterngrid: CDFnode, tree: CDFtree,
                    ghost nodes: set<CDFnode>) returns (newstruct: CDFnode)
    requires parentindex < |parent.subnodes| && parent.subnodes[parentindex] == node && patterngrid.nctype == Grid
    requires node in nodes && parent in nodes && node.container == parent
    modifies node`container, parent`subnodes, tree`nodes
    ensures fresh(newstruct) && IsWrapper(newstruct, patterngrid)
    ensures CanSplice(old(LinksOf(nodes)), node, parent, parentindex, newstruct)
    ensures LinksOf(nodes + {newstruct}) == Splice(old(LinksOf(nodes)), node, parent, parentindex, newstruct)
    ensures tree.nodes == old(tree.nodes) + [newstruct]
  {
    ghost var l := LinksOf(nodes);
    newstruct := MakeNewStruct(node, patterngrid);
    parent.subnodes := parent.subnodes[parentindex := newstruct];
    tree.nodes := tree.nodes + [newstruct];
    SplicedLinks(l, LinksOf(nodes + {newstruct}), node, parent, parentindex, newstruct);
  }


  /** Carry out one repair. */
  method RepairOne(node: CDFnode, pattern: CDFnode, tree: CDFtree, ghost nodes: set<CDFnode>) returns (w: CDFnode)
    requires node in nodes && node.container != null && node.container in nodes && node in node.container.subnodes
    requires pattern !in nodes && pattern.container != null && pattern.container.nctype == Grid
    modifies node`container, node.container`subnodes, tree`nodes
    ensures fresh(w) && IsWrapper(w, pattern.container)
    ensures CanWrap(old(LinksOf(nodes)), node, w)
    ensures LinksOf(nodes + {w}) == WrapLinks(old(LinksOf(nodes)), node, w)
    ensures tree.nodes == old(tree.nodes) + [w]
  {
    var index := FindIn(node.container, node);
    w := StructWrap(node, node.container, index, pattern.container, tree, nodes);
  }

  /** Repair i names a field of a grid of the pattern, outside the tree. */
  ghost predicate HasField(repairs: Repairs, i: nat, nodes: set<CDFnode>, pattern: map<CDFnode, CDFnode?>)
    requires i < |repairs|
    reads repairs[i].1
  {
    IsField(repairs[i].1, pattern) && repairs[i].1 !in nodes && repairs[i].1.container == pattern[repairs[i].1]
  }

  /** The next node to repair stands below its parent. */
  lemma {:induction false} NextStands(l: Links, root: CDFnode, repairs: Repairs, ws: seq<CDFnode>,
                                      pattern: map<CDFnode, CDFnode?>, nodes: set<CDFnode>)
    requires IsRepairable(l, root, repairs) && IsRun(l, repairs, ws, pattern) && |ws| < |repairs| && l.up.Keys == nodes
    requires LinksOf(nodes + SetOf(ws)) == Repaired(l, repairs, ws)
    ensures var node := repairs[|ws|].0;
            && node in nodes && node.container != null && node.container in nodes && node in node.container.subnodes
  {
    var node, b := repairs[|ws|].0, Repaired(l, repairs, ws);
    RepairedMutual(l, root, repairs, ws, pattern);
    NotMovedYet(l, root, repairs, ws, pattern, |ws|);
    assert IsBelow(l, root, repairs, |ws|);
    assert ParentLinked(l, node) && ParentLinked(b, node);
    assert b.up[node] == node.container;
  }

  lemma {:induction false} WithSetOf(nodes: set<CDFnode>, ws: seq<CDFnode>, w: CDFnode)
    ensures nodes + SetOf([]) == nodes
    ensures nodes + SetOf(ws + [w]) == nodes + SetOf(ws) + {w}
  {
    SetOfSnoc(ws + [w]);
    assert (ws + [w])[..|ws|] == ws;
  }

  lemma {:induction false} ListGrows(a: seq<CDFnode>, ws: seq<CDFnode>, w: CDFnode)
    ensures a + ws + [w] == a + (ws + [w])
  {
  }

  lemma {:induction false} OneMoreRun(l: Links, repairs: Repairs, ws: seq<CDFnode>, pattern: map<CDFnode, CDFnode?>,
                                      w: CDFnode)
    requires IsRun(l, repairs, ws, pattern) && |ws| < |repairs|
    requires CanWrap(Repaired(l, repairs, ws), repairs[|ws|].0, w)
    requires IsField(repairs[|ws|].1, pattern) && IsWrapper(w, pattern[repairs[|ws|].1])
    ensures IsRun(l, repairs, ws + [w], pattern)
    ensures Repaired(l, repairs, ws + [w]) == WrapLinks(Repaired(l, repairs, ws), repairs[|ws|].0, w)
    ensures SetOf(ws + [w]) == SetOf(ws) + {w}
  {
    assert (ws + [w])[..|ws|] == ws;
    SetOfSnoc(ws + [w]);
  }

  /** The links stand where the repairs so far have brought them. */
  ghost predicate LinksStand(l: Links, repairs: Repairs, ws: seq<CDFnode>, nodes: set<CDFnode>)
    requires |ws| <= |repairs|
    reads (nodes + SetOf(ws))`container, (nodes + SetOf(ws))`subnodes
  {
    LinksOf(nodes + SetOf(ws)) == Repaired(l, repairs, ws)
  }

  method RepairNext(node: CDFnode, field: CDFnode, tree: CDFtree, ghost base: seq<CDFnode>, ghost l: Links,
                    ghost root: CDFnode, ghost repairs: Repairs, ghost ws: seq<CDFnode>, ghost nodes: set<CDFnode>,
                    ghost pattern: map<CDFnode, CDFnode?>)
    returns (w: CDFnode)
    requires IsRepairable(l, root, repairs) && IsRun(l, repairs, ws, pattern) && l.up.Keys == nodes
    requires LinksStand(l, repairs, ws, nodes)
    requires |ws| < |repairs| && repairs[|ws|] == (node, field) && tree.nodes == base + ws
    requires HasField(repairs, |ws|, nodes, pattern) && field !in SetOf(ws)
    modifies nodes`container, nodes`subnodes, tree`nodes
    ensures fresh(w) && IsRun(l, repairs, ws + [w], pattern)
    ensures LinksStand(l, repairs, ws + [w], nodes)
    ensures SetOf(ws + [w]) == SetOf(ws) + {w}
    ensures tree.nodes == base + (ws + [w])
  {
    NextStands(l, root, repairs, ws, pattern, nodes);
    w := RepairOne(node, field, tree, nodes + SetOf(ws));
    OneMoreRun(l, repairs, ws, pattern, w);
    WithSetOf(nodes, ws, w);
    ListGrows(base, ws, w);
  }

  /** Carry out the repairs of a plan, in order. */
  method RepairGrids(repairs: Repairs, tree: CDFtree, ghost nodes: set<CDFnode>, ghost root: CDFnode,
                     ghost pattern: map<CDFnode, CDFnode?>, ghost l: Links) returns (ghost ws: seq<CDFnode>)
    requires l == LinksOf(nodes) && IsRepairable(l, root, repairs)
    requires forall i {:trigger HasField(repairs, i, nodes, pattern)} :: 0 <= i < |repairs| ==>
               HasField(repairs, i, nodes, pattern)
    modifies nodes`container, nodes`subnodes, tree`nodes
    ensures (forall x <- SetOf(ws) :: fresh(x)) && |ws| == |repairs| && IsRun(l, repairs, ws, pattern)
    ensures LinksStand(l, repairs, ws, nodes)
    ensures tree.nodes == old(tree.nodes) + ws
  {
    ws := [];
    WithSetOf(nodes, ws, root);
    var i := 0;
    while i < |repairs|
      invariant 0 <= i == |ws| <= |repairs| && forall x <- SetOf(ws) :: fresh(x)
      invariant IsRun(l, repairs, ws, pattern)
      invariant LinksStand(l, repairs, ws, nodes)
      invariant tree.nodes == old(tree.nodes) + ws
    {
      assert HasField(repairs, i, nodes, pattern) && repairs[i].1 !in SetOf(ws) by {
        assert old(HasField(repairs, i, nodes, pattern));
      }
      var w := RepairNext(repairs[i].0, repairs[i].1, tree, old(tree.nodes), l, root, repairs, ws, nodes, pattern);
      ws := ws + [w];
      i := i + 1;
    }
  }

  // ----- The whole repair

  ghost function ParentsOf(psh: Shape): map<CDFnode, CDFnode?>
    reads Nodes(psh)`container
  {
    map n | n in Nodes(psh) :: n.container
  }

  /** The plan for a tree can be carried out. */
  lemma {:induction false} PlanIsRepairable(sh: Shape, proot: CDFnode, m: map<CDFnode, CDFnode>, repairs: Repairs,
                                            pattern: map<CDFnode, CDFnode?>, columbia: bool)
    requires Linked(sh) && Distinct(sh) && SimpleNodeMatch(sh.node, proot, columbia)
    requires KidsFit(sh, |sh.kids|, proot, m, repairs, pattern, columbia)
    ensures AllFit(LinksOf(Nodes(sh)), sh.node, proot, m, repairs, pattern, columbia)
    ensures IsRepairable(LinksOf(Nodes(sh)), sh.node, repairs)
  {
    LinkedIsMutual(sh);
    var l := LinksOf(Nodes(sh));
    forall n | n in m && n != sh.node
      ensures FitsAt(l, m, repairs, pattern, columbia, n)
    {
      assert n in NodesUpTo(sh, |sh.kids|);
    }
    forall i | 0 <= i < |repairs|
      ensures IsBelow(l, sh.node, repairs, i)
    {
      assert repairs[i].0 in m;
    }
  }

  lemma {:induction false} PlanHasFields(l: Links, root: CDFnode, proot: CDFnode, m: map<CDFnode, CDFnode>,
                                         repairs: Repairs, psh: Shape, columbia: bool, nodes: set<CDFnode>, i: nat)
    requires AllFit(l, root, proot, m, repairs, ParentsOf(psh), columbia) && i < |repairs|
    requires nodes !! Nodes(psh)
    ensures HasField(repairs, i, nodes, ParentsOf(psh))
  {
    var n := repairs[i].0;
    assert n in m && m[n] == repairs[i].1;
    assert IsPending(n, repairs);
    assert FitsAt(l, m, repairs, ParentsOf(psh), columbia, n);
  }

  lemma {:induction false} PlanIsReady(sh: Shape, psh: Shape, columbia: bool) returns (m: map<CDFnode, CDFnode>)
    requires Linked(sh) && Distinct(sh) && PlainTree(sh) && Linked(psh) && PlainGrids(psh) && Nodes(sh) !! Nodes(psh)
    requires SimpleNodeMatch(sh.node, psh.node, columbia) && PlanUpTo(sh, |sh.kids|, psh, columbia).Some?
    ensures var repairs := PlanUpTo(sh, |sh.kids|, psh, columbia).value;
            && AllFit(LinksOf(Nodes(sh)), sh.node, psh.node, m, repairs, ParentsOf(psh), columbia)
            && IsRepairable(LinksOf(Nodes(sh)), sh.node, repairs)
            && forall i {:trigger HasField(repairs, i, Nodes(sh), ParentsOf(psh))} :: 0 <= i < |repairs| ==>
                 HasField(repairs, i, Nodes(sh), ParentsOf(psh))
  {
    var repairs, pattern := PlanUpTo(sh, |sh.kids|, psh, columbia).value, ParentsOf(psh);
    m := PlanFits(sh, |sh.kids|, psh, pattern, columbia);
    PlanIsRepairable(sh, psh.node, m, repairs, pattern, columbia);
    forall i | 0 <= i < |repairs|
      ensures HasField(repairs, i, Nodes(sh), pattern)
    {
      PlanHasFields(LinksOf(Nodes(sh)), sh.node, psh.node, m, repairs, psh, columbia, Nodes(sh), i);
    }
  }

  /** The outcome of a repair: parent and child links are mutual; every link is as it was or leads through one new
      single-child structure; and every node matches its counterpart, which lies below its parent's counterpart. */
  ghost predicate IsRepaired(a: Links, b: Links, root: CDFnode, proot: CDFnode, m: map<CDFnode, CDFnode>,
                             ws: seq<CDFnode>, pattern: map<CDFnode, CDFnode?>, columbia: bool)
  {
    && Mutual(b, root) && IsRewired(a, b, SetOf(ws)) && AllFit(b, root, proot, m, [], pattern, columbia)
    && forall w <- ws :: w in m && IsWrapper(w, m[w])
  }

  lemma {:induction false} RunIsRepaired(l: Links, root: CDFnode, proot: CDFnode, m0: map<CDFnode, CDFnode>,
                                         repairs: Repairs, pattern: map<CDFnode, CDFnode?>, columbia: bool,
                                         ws: seq<CDFnode>)
    returns (m: map<CDFnode, CDFnode>)
    requires IsRepairable(l, root, repairs) && IsRun(l, repairs, ws, pattern) && |ws| == |repairs|
    requires AllFit(l, root, proot, m0, repairs, pattern, columbia)
    ensures IsRepaired(l, Repaired(l, repairs, ws), root, proot, m, ws, pattern, columbia)
  {
    RepairedMutual(l, root, repairs, ws, pattern);
    RepairedRewired(l, root, repairs, ws, pattern);
    m := RepairedFit(l, root, proot, m0, repairs, pattern, columbia, ws);
    assert repairs[|ws|..] == [];
  }

  /** Match two trees and make the repairs that are needed; nothing is changed unless everything can be matched. */
  method RestructTree(ddsroot: CDFnode, patternroot: CDFnode, columbia: bool, tree: CDFtree, ghost sh: Shape,
                      ghost psh: Shape)
    returns (err: ErrCode, ghost ws: seq<CDFnode>, ghost m: map<CDFnode, CDFnode>)
    requires sh.node == ddsroot && Linked(sh) && Distinct(sh) && PlainTree(sh)
    requires psh.node == patternroot && Linked(psh) && PlainGrids(psh) && Nodes(sh) !! Nodes(psh)
    modifies Nodes(sh)`container, Nodes(sh)`subnodes, tree`nodes
    ensures err == if tree.restructed
                      || (SimpleNodeMatch(ddsroot, patternroot, columbia) && AllPlaceable(sh, psh, columbia))
                   then NC_NOERR else NC_EDATADDS
    ensures tree.nodes == old(tree.nodes) + ws && tree.restructed == old(tree.restructed)
    ensures Linked(psh) && ParentsOf(psh) == old(ParentsOf(psh))
    ensures err != NC_NOERR || tree.restructed ==> ws == [] && LinksOf(Nodes(sh)) == old(LinksOf(Nodes(sh)))
    ensures err == NC_NOERR && !tree.restructed ==>
              && (forall w <- SetOf(ws) :: fresh(w))
              && IsRepaired(old(LinksOf(Nodes(sh))), LinksOf(Nodes(sh) + SetOf(ws)), ddsroot, patternroot, m, ws,
                            old(ParentsOf(psh)), columbia)
              && AreAlike(m, Nodes(sh) + SetOf(ws), columbia)
    ensures AlikeTrees(sh, psh) ==> err == NC_NOERR && ws == [] && LinksOf(Nodes(sh)) == old(LinksOf(Nodes(sh)))
  {
    ws, m := [], map[];
    AlikeHasPlan(sh, psh, columbia);
    if tree.restructed {
      return NC_NOERR, ws, m;
    }
    if !SimpleNodeMatch(ddsroot, patternroot, columbia) {
      return NC_EDATADDS, ws, m;
    }
    PlanExists(sh, psh, columbia);
    NodesAllocated(psh);
    err, ws, m := RestructMatched(ddsroot, patternroot, columbia, tree, sh, psh, LinksOf(Nodes(sh)), ParentsOf(psh));
  }

  /** Match the trees below their roots, and repair. */
  method RestructMatched(ddsroot: CDFnode, patternroot: CDFnode, columbia: bool, tree: CDFtree, ghost sh: Shape,
                         ghost psh: Shape, ghost a: Links, ghost pattern: map<CDFnode, CDFnode?>)
    returns (err: ErrCode, ghost ws: seq<CDFnode>, ghost m: map<CDFnode, CDFnode>)
    requires sh.node == ddsroot && Linked(sh) && Distinct(sh) && PlainTree(sh)
    requires psh.node == patternroot && Linked(psh) && PlainGrids(psh) && Nodes(sh) !! Nodes(psh)
    requires SimpleNodeMatch(ddsroot, patternroot, columbia) && a == LinksOf(Nodes(sh)) && pattern == ParentsOf(psh)
    modifies Nodes(sh)`container, Nodes(sh)`subnodes, tree`nodes
    ensures err == if PlanUpTo(sh, |sh.kids|, psh, columbia).Some? then NC_NOERR else NC_EDATADDS
    ensures tree.nodes == old(tree.nodes) + ws && Linked(psh) && ParentsOf(psh) == pattern
    ensures err != NC_NOERR ==> ws == [] && LinksOf(Nodes(sh)) == a
    ensures err == NC_NOERR ==>
              && (forall w <- SetOf(ws) :: fresh(w)) && AreAlike(m, Nodes(sh) + SetOf(ws), columbia)
              && IsRepaired(a, LinksOf(Nodes(sh) + SetOf(ws)), ddsroot, patternroot, m, ws, pattern, columbia)
    ensures PlanUpTo(sh, |sh.kids|, psh, columbia) == Some([]) ==> ws == [] && LinksOf(Nodes(sh)) == a
  {
    err, ws, m := MatchBeside(ddsroot, patternroot, columbia, tree, sh, psh, a, pattern);
    if err == NC_NOERR {
      RepairedAlike(a, LinksOf(Nodes(sh) + SetOf(ws)), ddsroot, patternroot, m, ws, pattern, columbia);
      WithSetOf(Nodes(sh), ws, ddsroot);
    }
  }

  /** Match and repair; the pattern stays as it is. */
  method MatchBeside(ddsroot: CDFnode, patternroot: CDFnode, columbia: bool, tree: CDFtree, ghost sh: Shape,
                     ghost psh: Shape, ghost a: Links, ghost pattern: map<CDFnode, CDFnode?>)
    returns (err: ErrCode, ghost ws: seq<CDFnode>, ghost m: map<CDFnode, CDFnode>)
    requires sh.node == ddsroot && Linked(sh) && Distinct(sh) && PlainTree(sh)
    requires psh.node == patternroot && Linked(psh) && PlainGrids(psh) && Nodes(sh) !! Nodes(psh)
    requires SimpleNodeMatch(ddsroot, patternroot, columbia) && a == LinksOf(Nodes(sh)) && pattern == ParentsOf(psh)
    modifies Nodes(sh)`container, Nodes(sh)`subnodes, tree`nodes
    ensures err == if PlanUpTo(sh, |sh.kids|, psh, columbia).Some? then NC_NOERR else NC_EDATADDS
    ensures tree.nodes == old(tree.nodes) + ws && Linked(psh) && ParentsOf(psh) == pattern
    ensures err != NC_NOERR ==> ws == [] && LinksOf(Nodes(sh)) == a
    ensures err == NC_NOERR ==>
              && (forall w <- SetOf(ws) :: fresh(w)) && |ws| == |PlanUpTo(sh, |sh.kids|, psh, columbia).value|
              && IsRepaired(a, LinksOf(Nodes(sh) + SetOf(ws)), ddsroot, patternroot, m, ws, pattern, columbia)
  {
    NodesAllocated(psh);
    err, ws, m := MatchAndRepair(ddsroot, patternroot, columbia, tree, sh, psh, a, pattern);
  }

  lemma {:induction false} AlikeHasPlan(sh: Shape, psh: Shape, columbia: bool)
    ensures AlikeTrees(sh, psh) ==>
              SimpleNodeMatch(sh.node, psh.node, columbia) && PlanUpTo(sh, |sh.kids|, psh, columbia) == Some([])
  {
    if AlikeTrees(sh, psh) {
      AlikeMatch(sh.node, psh.node, columbia);
      AlikePlan(sh, |sh.kids|, psh, columbia);
    }
  }

  /** Every node is alike its counterpart, but for a columbia dataset. */
  ghost predicate AreAlike(m: map<CDFnode, CDFnode>, nodes: set<CDFnode>, columbia: bool)
  {
    m.Keys == nodes && forall n <- m :: AlikeNodes(n, m[n]) || (columbia && n.nctype == Dataset)
  }

  /** Every node of a repaired tree is alike its counterpart, and if no node was added all links are as they were. */
  lemma {:induction false} RepairedAlike(a: Links, b: Links, root: CDFnode, proot: CDFnode, m: map<CDFnode, CDFnode>,
                                         ws: seq<CDFnode>, pattern: map<CDFnode, CDFnode?>, columbia: bool)
    requires IsRepaired(a, b, root, proot, m, ws, pattern, columbia)
    ensures AreAlike(m, a.up.Keys + SetOf(ws), columbia)
    ensures ws == [] ==> a == b
  {
    forall n | n in m
      ensures AlikeNodes(n, m[n]) || (columbia && n.nctype == Dataset)
    {
      assert n != root ==> FitsAt(b, m, [], pattern, columbia, n);
      MatchIffAlike(n, m[n], columbia);
    }
    if ws == [] {
      forall n | n in a.up
        ensures a.up[n] == b.up[n] && a.down[n] == b.down[n]
      {
        assert IsRewiredAt(a, b, SetOf(ws), n);
      }
      assert a.up == b.up && a.down == b.down;
    }
  }

  method MatchAndRepair(ddsroot: CDFnode, patternroot: CDFnode, columbia: bool, tree: CDFtree, ghost sh: Shape,
                        ghost psh: Shape, ghost a: Links, ghost pattern: map<CDFnode, CDFnode?>)
    returns (err: ErrCode, ghost ws: seq<CDFnode>, ghost m: map<CDFnode, CDFnode>)
    requires sh.node == ddsroot && Linked(sh) && Distinct(sh) && PlainTree(sh)
    requires psh.node == patternroot && Linked(psh) && PlainGrids(psh) && Nodes(sh) !! Nodes(psh)
    requires SimpleNodeMatch(ddsroot, patternroot, columbia) && a == LinksOf(Nodes(sh)) && pattern == ParentsOf(psh)
    modifies Nodes(sh)`container, Nodes(sh)`subnodes, tree`nodes
    ensures err == if PlanUpTo(sh, |sh.kids|, psh, columbia).Some? then NC_NOERR else NC_EDATADDS
    ensures err == NC_NOERR ==> |ws| == |PlanUpTo(sh, |sh.kids|, psh, columbia).value|
    ensures tree.nodes == old(tree.nodes) + ws
    ensures err != NC_NOERR ==> ws == [] && LinksOf(Nodes(sh)) == a
    ensures err == NC_NOERR ==>
              && (forall w <- SetOf(ws) :: fresh(w))
              && IsRepaired(a, LinksOf(Nodes(sh) + SetOf(ws)), ddsroot, patternroot, m, ws, pattern, columbia)
  {
    NodesAllocated(sh);
    NodesAllocated(psh);
    ws, m := [], map[];
    var repairs := RestructR(ddsroot, patternroot, columbia, sh, psh);
    if repairs.None? {
      return NC_EDATADDS, ws, m;
    }
    ghost var m0 := PlanIsReady(sh, psh, columbia);
    ws := RepairGrids(repairs.value, tree, Nodes(sh), ddsroot, pattern, a);
    m := RunIsRepaired(a, ddsroot, patternroot, m0, repairs.value, pattern, columbia, ws);
    err := NC_NOERR;
  }
}
