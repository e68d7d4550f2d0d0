/** Fixing the list of projections of a constraint: duplicates and containers. */
module Fixing {
  import opened Wrappers
  import opened Tree
  import opened Projections
  import opened Names

  /** What fixing looks at in a projection. */
  datatype Key = Call | Variable(node: CDFnode)

  predicate IsContainer(k: Key)
  {
    k.Variable?
    && (k.node.nctype == Dataset || k.node.nctype == Sequence || k.node.nctype == Structure || k.node.nctype == Grid)
  }

  // ----- What remains, as a value

  /** Some variable key among the first n is equal. */
  predicate IsRepeated(keys: seq<Key>, k: Key, n: nat)
    requires n <= |keys|
  {
    k.Variable? && k in keys[..n]
  }

  predicate IsKept(keys: seq<Key>, i: nat)
    requires i < |keys|
  {
    !IsRepeated(keys, keys[i], i) && !IsContainer(keys[i])
  }

  /** The positions, below n, of the projections that remain. */
  function Kept(keys: seq<Key>, n: nat): (r: seq<nat>)
    requires n <= |keys|
    ensures forall i :: 0 <= i < |r| ==> r[i] < n && IsKept(keys, r[i])
    ensures forall i, j :: 0 <= i < j < |r| ==> r[i] < r[j]
  {
    if n == 0 then []
    else Kept(keys, n - 1) + if IsKept(keys, n - 1) then [n - 1] else []
  }

  lemma {:induction false} KeptComplete(keys: seq<Key>, n: nat, i: nat)
    requires i < n <= |keys| && IsKept(keys, i)
    ensures i in Kept(keys, n)
  {
    if i < n - 1 {
      KeptComplete(keys, n - 1, i);
    }
  }

  lemma {:induction false} FirstOf(keys: seq<Key>, k: Key, n: nat) returns (i: nat)
    requires n <= |keys| && k in keys[..n]
    ensures i < n && keys[i] == k && k !in keys[..i]
  {
    i := 0;
    while keys[i] != k
      invariant i < n && k in keys[i..n] && k !in keys[..i]
      decreases n - i
    {
      i := i + 1;
    }
  }

  /** No variable is kept twice. */
  ghost predicate AreKeptOnce(keys: seq<Key>, kept: seq<nat>)
    requires forall i :: 0 <= i < |kept| ==> kept[i] < |keys|
  {
    forall i, j :: 0 <= i < j < |kept| ==> keys[kept[i]] != keys[kept[j]] || keys[kept[i]].Call?
  }

  lemma {:induction false} KeptOnce(keys: seq<Key>)
    ensures AreKeptOnce(keys, Kept(keys, |keys|))
  {
    var kept := Kept(keys, |keys|);
    forall i, j | 0 <= i < j < |kept|
      ensures keys[kept[i]] != keys[kept[j]] || keys[kept[i]].Call?
    {
      assert kept[j] in kept && IsKept(keys, kept[j]);
      assert keys[kept[i]] in keys[..kept[j]];
    }
  }

  /** Exactly the function calls and the variables that are not containers remain. */
  lemma {:induction false} WhatRemains(keys: seq<Key>, k: Key)
    ensures Remains(keys, k) <==> k in keys && !IsContainer(k)
    ensures Remains(keys, k) <==> k in keys && (k.Call? || k.node.nctype == Atomic || k.node.nctype == Dimension)
  {
    if k in keys && !IsContainer(k) {
      assert keys[..|keys|] == keys;
      var i := FirstOf(keys, k, |keys|);
      KeptComplete(keys, |keys|, i);
    }
  }

  /** A position is kept iff it holds a function call, or a variable that stands at no earlier position and is no
      dataset, sequence, structure or grid. */
  lemma {:induction false} KeptIff(keys: seq<Key>, i: nat)
    requires i < |keys|
    ensures i in Kept(keys, |keys|) <==>
              keys[i].Call? || (keys[i] !in keys[..i] && keys[i].node.nctype in {Atomic, Dimension})
  {
    if IsKept(keys, i) {
      KeptComplete(keys, |keys|, i);
    }
  }

  /** Some projected container is among the containers of a node. */
  predicate IsEnclosed(keys: seq<Key>, chain: seq<CDFnode>)
  {
    exists k <- keys :: IsContainer(k) && k.node in chain
  }

  predicate Remains(keys: seq<Key>, k: Key)
  {
    exists i :: 0 <= i < |keys| && i in Kept(keys, |keys|) && keys[i] == k
  }

  /** A leaf that was asked for, itself or through a container, remains projected iff no projected container encloses it
      or it was projected itself: a container should be replaced by its fields, but is dropped. */
  lemma {:induction false} AskedForRemains(keys: seq<Key>, leaf: CDFnode, chain: seq<CDFnode>)
    requires !IsContainer(Variable(leaf))
    ensures (Variable(leaf) in keys || IsEnclosed(keys, chain) ==> Remains(keys, Variable(leaf)))
       <==> !IsEnclosed(keys, chain) || Variable(leaf) in keys
  {
    WhatRemains(keys, Variable(leaf));
  }

  /** A constraint that projects one structure projects nothing any more, though all its fields were asked for. */
  lemma {:induction false} LoneStructureVanishes(structure: CDFnode, leaf: CDFnode)
    requires structure.nctype == Structure && leaf.nctype == Atomic
    ensures var keys := [Variable(structure)];
            Kept(keys, |keys|) == [] && IsEnclosed(keys, [structure, leaf]) && !Remains(keys, Variable(leaf))
  {
    var keys := [Variable(structure)];
    assert Variable(structure) in keys && IsContainer(Variable(structure));
    assert Kept(keys, 0) == [] && !IsKept(keys, 0);
  }

  // ----- The list on the heap

  class ProjectionList {
    var items: seq<DCEprojection?>

    constructor (items: seq<DCEprojection?>)
      ensures this.items == items
    {
      this.items := items;
    }
  }

  ghost predicate HasKey(p: DCEprojection, k: Key)
    reads p.variable
  {
    if k.Call? then p.discrim == CES_FCN else p.discrim == CES_VAR && p.variable.annotation == Some(k.node)
  }

  ghost predicate HaveKeys(ps: seq<DCEprojection>, keys: seq<Key>)
    reads set p <- ps :: p.variable
  {
    |ps| == |keys| && forall i :: 0 <= i < |ps| ==> HasKey(ps[i], keys[i])
  }

  predicate AreDistinct(ps: seq<DCEprojection>)
  {
    forall i, j :: 0 <= i < j < |ps| ==> ps[i] != ps[j]
  }

  /** What stands at position k when the variables at the first n positions have had their repetitions removed. */
  function Deduped(ps: seq<DCEprojection>, keys: seq<Key>, k: nat, n: nat): DCEprojection?
    requires k < |ps| == |keys|
  {
    if IsRepeated(keys, keys[k], if n < k then n else k) then null else ps[k]
  }

  lemma {:induction false} RepeatedAlready(keys: seq<Key>, k: nat, n: nat)
    requires n < k < |keys| && IsRepeated(keys, keys[n], n)
    ensures IsRepeated(keys, keys[k], n + 1) <==> IsRepeated(keys, keys[k], n)
  {
    assert keys[..n + 1] == keys[..n] + [keys[n]];
  }

  lemma {:induction false} RepeatedNext(keys: seq<Key>, k: nat, n: nat)
    requires n < k < |keys|
    ensures IsRepeated(keys, keys[k], n + 1) <==>
              IsRepeated(keys, keys[k], n) || (keys[k].Variable? && keys[n] == keys[k])
  {
    assert keys[..n + 1] == keys[..n] + [keys[n]];
  }

  /** Step 1, for one variable: remove its repetitions. */
  method RemoveRepetitions(list: ProjectionList, i: nat, p1: DCEprojection, ghost ps: seq<DCEprojection>,
                           ghost keys: seq<Key>)
    requires HaveKeys(ps, keys) && AreDistinct(ps) && i < |ps| == |list.items|
    requires forall k :: 0 <= k < |ps| ==> list.items[k] == Deduped(ps, keys, k, i)
    requires list.items[i] == p1 && keys[i].Variable?
    modifies list
    ensures |list.items| == |ps|
    ensures forall k :: 0 <= k < |ps| ==> list.items[k] == Deduped(ps, keys, k, i + 1)
  {
    var j := i;
    while j < |list.items|
      invariant i <= j <= |list.items| == |ps| && HaveKeys(ps, keys)
      invariant forall k :: 0 <= k < |ps| ==> list.items[k] == Deduped(ps, keys, k, if k < j then i + 1 else i)
    {
      var p2 := list.items[j];
      assert HasKey(ps[i], keys[i]) && HasKey(ps[j], keys[j]);
      if i < j {
        RepeatedNext(keys, j, i);
      }
      if p2 != null && p1 != p2 && p2.discrim == CES_VAR && p1.variable.annotation == p2.variable.annotation {
        list.items := list.items[j := null];
      }
      j := j + 1;
    }
  }

  /** Step 1: remove duplicates. */
  method RemoveDuplicates(list: ProjectionList, ghost ps: seq<DCEprojection>, ghost keys: seq<Key>)
    requires HaveKeys(ps, keys) && AreDistinct(ps) && list.items == ps
    modifies list
    ensures |list.items| == |ps|
    ensures forall k :: 0 <= k < |ps| ==> list.items[k] == Deduped(ps, keys, k, k)
  {
    var i := 0;
    while i < |list.items|
      invariant 0 <= i <= |list.items| == |ps| && HaveKeys(ps, keys)
      invariant forall k :: 0 <= k < |ps| ==> list.items[k] == Deduped(ps, keys, k, i)
    {
      var p1 := list.items[i];
      assert HasKey(ps[i], keys[i]);
      if p1 != null && p1.discrim == CES_VAR {
        RemoveRepetitions(list, i, p1, ps, keys);
      } else {
        forall k | i < k < |ps|
          ensures Deduped(ps, keys, k, i) == Deduped(ps, keys, k, i + 1)
        {
          if p1 == null {
            RepeatedAlready(keys, k, i);
          } else {
            RepeatedNext(keys, k, i);
          }
        }
      }
      i := i + 1;
    }
  }

  /** The annotated nodes, each with its containers. */
  type Chains = map<CDFnode, seq<CDFnode>>

  predicate AreChainedKeys(keys: seq<Key>, chains: Chains, up: Parents)
  {
    forall k <- keys :: k.Variable? ==> IsChainedNode(k.node, chains, up)
  }

  predicate IsChainedNode(node: CDFnode, chains: Chains, up: Parents)
  {
    node in chains && IsChain(chains[node], node, up)
  }

  /** The entries that are left are the projections with those keys. */
  ghost predicate IsEntry(items: seq<DCEprojection?>, keys: seq<Key>, i: nat)
    requires i < |items| == |keys|
    reads if items[i] == null then {} else {items[i].variable}
  {
    items[i] != null ==> HasKey(items[i], keys[i])
  }

  /** Step 2, for one container: does any of the later projections, itself included, lie in it? One always does, since
      a node is on its own path. */
  method HasField(items: seq<DCEprojection?>, i: nat, p1: DCEprojection, node: CDFnode, ghost keys: seq<Key>,
                  ghost chains: Chains, ghost up: Parents) returns (found: bool)
    requires i < |items| == |keys| && items[i] == p1 && keys[i] == Variable(node)
    requires forall j {:trigger IsEntry(items, keys, j)} :: 0 <= j < |items| ==> IsEntry(items, keys, j)
    requires AreContainers(up) && AreChainedKeys(keys, chains, up)
    ensures found
  {
    found := false;
    var j := i;
    while j < |items| && !found
      invariant i <= j <= |items|
      invariant i < j ==> found
    {
      var p2 := items[j];
      assert IsEntry(items, keys, j) && keys[j] in keys;
      if p2 != null && p2.discrim == CES_VAR {
        assert IsChainedNode(keys[j].node, chains, up);
        var tmp := CollectNodePath(p2.variable.annotation.value, true, chains[keys[j].node], up);
        found := IsOn(tmp, node);
      }
      j := j + 1;
    }
  }

  method IsOn(path: seq<CDFnode>, node: CDFnode) returns (found: bool)
    ensures found <==> node in path
  {
    found := false;
    var k := 0;
    while k < |path|
      invariant 0 <= k <= |path| && node !in path[..k] && !found
    {
      if path[k] == node {
        return true;
      }
      k := k + 1;
    }
  }

  /** What stands at position k after the first n containers have been looked at. */
  function Uncontained(ps: seq<DCEprojection>, keys: seq<Key>, k: nat, n: nat): DCEprojection?
    requires k < |ps| == |keys|
  {
    if k < n && IsContainer(keys[k]) then null else Deduped(ps, keys, k, k)
  }

  /** Step 2: every container lies on its own path, so every container is removed. */
  method RemoveContainers(list: ProjectionList, ghost ps: seq<DCEprojection>, ghost keys: seq<Key>,
                          ghost chains: Chains, ghost up: Parents)
    requires HaveKeys(ps, keys) && |list.items| == |ps|
    requires AreContainers(up) && AreChainedKeys(keys, chains, up)
    requires forall k :: 0 <= k < |ps| ==> list.items[k] == Deduped(ps, keys, k, k)
    modifies list
    ensures |list.items| == |ps|
    ensures forall k :: 0 <= k < |ps| ==> list.items[k] == if IsKept(keys, k) then ps[k] else null
  {
    var i := 0;
    while i < |list.items|
      invariant 0 <= i <= |list.items| == |ps| && HaveKeys(ps, keys)
      invariant forall k :: 0 <= k < |ps| ==> list.items[k] == Uncontained(ps, keys, k, i)
    {
      RemoveContainer(list, i, ps, keys, chains, up);
      i := i + 1;
    }
  }

  method RemoveContainer(list: ProjectionList, i: nat, ghost ps: seq<DCEprojection>, ghost keys: seq<Key>,
                         ghost chains: Chains, ghost up: Parents)
    requires HaveKeys(ps, keys) && i < |list.items| == |ps|
    requires AreContainers(up) && AreChainedKeys(keys, chains, up)
    requires forall k :: 0 <= k < |ps| ==> list.items[k] == Uncontained(ps, keys, k, i)
    modifies list
    ensures |list.items| == |ps|
    ensures forall k :: 0 <= k < |ps| ==> list.items[k] == Uncontained(ps, keys, k, i + 1)
  {
    var p1 := list.items[i];
    assert HasKey(ps[i], keys[i]);
    if p1 == null || p1.discrim != CES_VAR {
      return;
    }
    var node := p1.variable.annotation.value;
    if node.nctype == Dataset || node.nctype == Sequence || node.nctype == Structure || node.nctype == Grid {
      forall k | 0 <= k < |ps|
        ensures IsEntry(list.items, keys, k)
      {
        assert HasKey(ps[k], keys[k]);
      }
      var found := HasField(list.items, i, p1, node, keys, chains, up);
      if found {
        list.items := list.items[i := null];
      }
    }
  }

  /** The containers among the first n entries, each once. */
  function CapturedUpTo(items: seq<DCEprojection?>, keys: seq<Key>, n: nat): seq<DCEprojection>
    requires n <= |items| == |keys|
  {
    if n == 0 then []
    else
      var before := CapturedUpTo(items, keys, n - 1);
      if items[n - 1] != null && IsContainer(keys[n - 1]) && items[n - 1] !in before then before + [items[n - 1]]
      else before
  }

  /** Step 3 takes the containers out of the list, to expand them. */
  method CaptureContainers(list: ProjectionList, ghost keys: seq<Key>) returns (captured: seq<DCEprojection>)
    requires |list.items| == |keys|
    requires forall i {:trigger IsEntry(list.items, keys, i)} :: 0 <= i < |keys| ==> IsEntry(list.items, keys, i)
    modifies list
    ensures captured == CapturedUpTo(old(list.items), keys, |keys|)
    ensures |list.items| == |keys|
    ensures forall k :: 0 <= k < |keys| ==> list.items[k] == if IsContainer(keys[k]) then null else old(list.items)[k]
  {
    captured := [];
    var i := 0;
    while i < |list.items|
      invariant 0 <= i <= |list.items| == |keys|
      invariant captured == CapturedUpTo(old(list.items), keys, i)
      invariant forall k :: i <= k < |keys| ==> list.items[k] == old(list.items)[k]
      invariant forall k :: 0 <= k < i ==> list.items[k] == if IsContainer(keys[k]) then null else old(list.items)[k]
    {
      var target := list.items[i];
      assert old(IsEntry(list.items, keys, i));
      if target != null && target.discrim == CES_VAR {
        var leaf := target.variable.annotation.value;
        if leaf.nctype == Dataset || leaf.nctype == Sequence || leaf.nctype == Structure || leaf.nctype == Grid {
          if target !in captured {
            captured := captured + [target];
          }
          list.items := list.items[i := null];
        }
      }
      i := i + 1;
    }
  }

  lemma {:induction false} NothingCaptured(items: seq<DCEprojection?>, keys: seq<Key>, n: nat)
    requires n <= |items| == |keys|
    requires forall i :: 0 <= i < n && items[i] != null ==> !IsContainer(keys[i])
    ensures CapturedUpTo(items, keys, n) == []
  {
    if n > 0 {
      NothingCaptured(items, keys, n - 1);
    }
  }

  /** The kept projections among the first n. */
  function Remaining(ps: seq<DCEprojection>, keys: seq<Key>, n: nat): seq<DCEprojection>
    requires n <= |ps| == |keys|
  {
    if n == 0 then []
    else Remaining(ps, keys, n - 1) + if IsKept(keys, n - 1) then [ps[n - 1]] else []
  }

  lemma {:induction false} RemainingAt(ps: seq<DCEprojection>, keys: seq<Key>, n: nat)
    requires n <= |ps| == |keys|
    ensures var kept := Kept(keys, n);
            |Remaining(ps, keys, n)| == |kept|
            && forall i :: 0 <= i < |kept| ==> kept[i] < n && Remaining(ps, keys, n)[i] == ps[kept[i]]
  {
    if n > 0 {
      RemainingAt(ps, keys, n - 1);
    }
  }

  lemma {:induction false} RemainingIff(ps: seq<DCEprojection>, keys: seq<Key>, i: nat)
    requires i < |ps| == |keys| && AreDistinct(ps)
    ensures ps[i] in Remaining(ps, keys, |ps|) <==> i in Kept(keys, |keys|)
  {
    var kept := Kept(keys, |keys|);
    RemainingAt(ps, keys, |ps|);
    if i in kept {
      var j :| 0 <= j < |kept| && kept[j] == i;
      assert Remaining(ps, keys, |ps|)[j] == ps[i];
    }
    if ps[i] in Remaining(ps, keys, |ps|) {
      var j :| 0 <= j < |kept| && Remaining(ps, keys, |ps|)[j] == ps[i];
      assert ps[kept[j]] == ps[i];
    }
  }

  /** Drop the empty entries, from the end backward. */
  method Compact(list: ProjectionList, ghost ps: seq<DCEprojection>, ghost keys: seq<Key>)
    requires |list.items| == |ps| == |keys|
    requires forall k :: 0 <= k < |ps| ==> list.items[k] == if IsKept(keys, k) then ps[k] else null
    modifies list
    ensures list.items == Remaining(ps, keys, |ps|)
  {
    var i := |list.items| - 1;
    ghost var tail := [];
    while 0 <= i
      invariant -1 <= i < |ps| && |list.items| == i + 1 + |tail|
      invariant list.items[i + 1..] == tail
      invariant forall k :: 0 <= k <= i ==> list.items[k] == if IsKept(keys, k) then ps[k] else null
      invariant Remaining(ps, keys, |ps|) == Remaining(ps, keys, i + 1) + tail
    {
      ghost var before := Remaining(ps, keys, i);
      if list.items[i] == null {
        list.items := list.items[..i] + list.items[i + 1..];
      } else {
        assert before + [ps[i]] + tail == before + ([ps[i]] + tail);
        tail := [ps[i]] + tail;
      }
      i := i - 1;
    }
  }

  /** Fix the projections: what remains is every function call and the first projection of every variable that is not a
      container, in order. The third step finds nothing to expand. */
  method FixProjections(list: ProjectionList, ghost ps: seq<DCEprojection>, ghost keys: seq<Key>, ghost chains: Chains,
                        ghost up: Parents)
    requires HaveKeys(ps, keys) && AreDistinct(ps) && list.items == ps
    requires AreContainers(up) && AreChainedKeys(keys, chains, up)
    modifies list
    ensures |list.items| == |Kept(keys, |keys|)|
    ensures forall i :: 0 <= i < |list.items| ==> list.items[i] == ps[Kept(keys, |keys|)[i]]
    ensures AreKeptOnce(keys, Kept(keys, |keys|))
    ensures forall i :: 0 <= i < |ps| ==>
              (ps[i] in list.items <==>
                keys[i].Call? || (keys[i] !in keys[..i] && keys[i].node.nctype in {Atomic, Dimension}))
  {
    RemainingAt(ps, keys, |ps|);
    KeptOnce(keys);
    forall i | 0 <= i < |ps|
      ensures ps[i] in Remaining(ps, keys, |ps|) <==> i in Kept(keys, |keys|)
      ensures i in Kept(keys, |keys|) <==>
                keys[i].Call? || (keys[i] !in keys[..i] && keys[i].node.nctype in {Atomic, Dimension})
    {
      RemainingIff(ps, keys, i);
      KeptIff(keys, i);
    }
    if |list.items| == 0 {
      return;
    }
    RemoveDuplicates(list, ps, keys);
    RemoveContainers(list, ps, keys, chains, up);
    forall k | 0 <= k < |ps|
      ensures IsEntry(list.items, keys, k)
    {
      assert HasKey(ps[k], keys[k]);
    }
    NothingCaptured(list.items, keys, |keys|);
    ghost var before := list.items;
    var captured := CaptureContainers(list, keys);
    assert captured == [] && list.items == before;
    Compact(list, ps, keys);
  }
}
