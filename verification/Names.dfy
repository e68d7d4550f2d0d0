/** Resolving the partial names of a projection to tree nodes, and completing them. */
module Names {
  import opened Wrappers
  import opened Segments
  import opened Projections
  import opened Tree

  // ----- Paths

  type Parents = map<CDFnode, CDFnode?>

  /** The map gives the containers of its nodes. */
  ghost predicate AreContainers(up: Parents)
    reads up.Keys`container
  {
    forall n <- up :: n.container == up[n]
  }

  predicate IsLink(chain: seq<CDFnode>, k: nat, up: Parents)
    requires 0 < k < |chain|
  {
    chain[k] in up && up[chain[k]] == chain[k - 1]
  }

  /** The containers of a node, from the outermost down to the node itself. */
  predicate IsChain(chain: seq<CDFnode>, node: CDFnode, up: Parents)
  {
    && chain != [] && chain[|chain| - 1] == node && chain[0] in up && up[chain[0]] == null
    && forall k {:trigger IsLink(chain, k, up)} :: 0 < k < |chain| ==> IsLink(chain, k, up)
  }

  /** Where the path of a node starts: it leaves out the dataset, and all above it. */
  function PathStart(chain: seq<CDFnode>, i: nat): (start: nat)
    requires i < |chain|
    ensures start <= i && forall k :: start <= k < i ==> chain[k].nctype != Dataset
    ensures start == 0 || chain[start - 1].nctype == Dataset
  {
    if i == 0 || chain[i - 1].nctype == Dataset then i else PathStart(chain, i - 1)
  }

  function PathOf(chain: seq<CDFnode>): (path: seq<CDFnode>)
    requires chain != []
    ensures path != []
  {
    chain[PathStart(chain, |chain| - 1)..]
  }

  /** Collect a node and its containers, with or without the dataset. */
  method CollectNodePath(node: CDFnode, withdataset: bool, ghost chain: seq<CDFnode>, ghost up: Parents)
    returns (path: seq<CDFnode>)
    requires AreContainers(up) && IsChain(chain, node, up)
    ensures path == if withdataset then chain else PathOf(chain)
  {
    path := [node];
    var n := node;
    ghost var i := |chain| - 1;
    assert i > 0 ==> IsLink(chain, i, up);
    while n.container != null
      invariant 0 <= i < |chain| && n == chain[i] && path == chain[i..]
      invariant !withdataset ==> PathStart(chain, |chain| - 1) == PathStart(chain, i)
      invariant i > 0 ==> IsLink(chain, i, up)
      decreases i
    {
      n := n.container;
      if !withdataset && n.nctype == Dataset {
        break;
      }
      path := [n] + path;
      i := i - 1;
      assert i > 0 ==> IsLink(chain, i, up);
    }
  }

  // ----- Matching a suffix

  /** A segment names a node; a rank, if it has one beyond that of a sequence, is the node's. */
  predicate SegmentMatches(seg: SegmentView, node: CDFnode)
  {
    var rank := if node.nctype == Sequence then seg.rank - 1 else seg.rank;
    seg.name == node.ocname && (rank <= 0 || rank == |node.dimset0|)
  }

  /** The segments match the end of the path. */
  predicate SuffixMatches(path: seq<CDFnode>, segments: seq<SegmentView>)
  {
    |segments| <= |path|
    && forall i :: 0 <= i < |segments| ==> SegmentMatches(segments[i], path[|path| - |segments| + i])
  }

  method MatchSuffix(path: seq<CDFnode>, segments: seq<DCEsegment>, ghost views: seq<SegmentView>)
    returns (matched: bool)
    requires |views| == |segments| && forall i :: 0 <= i < |segments| ==> segments[i].View() == views[i]
    ensures matched <==> SuffixMatches(path, views)
  {
    var pathstart := |path| - |segments|;
    if pathstart < 0 {
      return false;
    }
    var i := 0;
    while i < |segments|
      invariant 0 <= i <= |segments|
      invariant forall k :: 0 <= k < i ==> SegmentMatches(views[k], path[pathstart + k])
    {
      var node, seg := path[pathstart + i], segments[i];
      var rank: int := seg.rank;
      var segmatch := true;
      if seg.name != node.ocname {
        segmatch := false;
      } else {
        if node.nctype == Sequence {
          rank := rank - 1;
        }
        if rank > 0 && rank != |node.dimset0| {
          segmatch := false;
        }
      }
      if !segmatch {
        assert !SegmentMatches(views[i], path[pathstart + i]);
        return false;
      }
      i := i + 1;
    }
    return true;
  }

  // ----- The matches

  /** The kinds of nodes that a projection can name. */
  predicate IsNameable(node: CDFnode)
  {
    node.nctype == Sequence || node.nctype == Structure || node.nctype == Grid || node.nctype == Atomic
  }

  /** The last segment names the node, and the segments match the end of its path. */
  predicate IsMatch(node: CDFnode, chain: seq<CDFnode>, segments: seq<SegmentView>)
    requires chain != [] && segments != []
  {
    node.ocname == segments[|segments| - 1].name && IsNameable(node) && SuffixMatches(PathOf(chain), segments)
  }

  /** A node together with its containers. */
  datatype Candidate = Candidate(node: CDFnode, chain: seq<CDFnode>)

  predicate AreChained(cs: seq<Candidate>)
  {
    forall c <- cs :: c.chain != []
  }

  /** The candidates that match, in order. */
  function Matches(cs: seq<Candidate>, segments: seq<SegmentView>): (r: seq<Candidate>)
    requires AreChained(cs) && segments != []
    ensures AreChained(r) && forall c <- r :: c in cs && IsMatch(c.node, c.chain, segments)
  {
    if cs == [] then []
    else
      var c := cs[|cs| - 1];
      var before := Matches(cs[..|cs| - 1], segments);
      if IsMatch(c.node, c.chain, segments) then before + [c] else before
  }

  /** Every candidate that matches is among the matches. */
  lemma {:induction false} MatchesComplete(cs: seq<Candidate>, segments: seq<SegmentView>, c: Candidate)
    requires AreChained(cs) && segments != [] && c in cs && IsMatch(c.node, c.chain, segments)
    ensures c in Matches(cs, segments)
  {
    if c != cs[|cs| - 1] {
      MatchesComplete(cs[..|cs| - 1], segments, c);
    }
  }

  function Length(c: Candidate): nat
    requires c.chain != []
  {
    |PathOf(c.chain)|
  }

  function Lengths(cs: seq<Candidate>): (r: seq<nat>)
    requires AreChained(cs)
    ensures |r| == |cs| && forall i :: 0 <= i < |r| ==> r[i] == Length(cs[i])
  {
    if cs == [] then [] else Lengths(cs[..|cs| - 1]) + [Length(cs[|cs| - 1])]
  }

  /** The position of the first of the least of the first n numbers. */
  function FirstLeast(a: seq<nat>, n: nat): (i: nat)
    requires 0 < n <= |a|
    ensures i < n
  {
    if n == 1 then 0
    else
      var best := FirstLeast(a, n - 1);
      if a[n - 1] < a[best] then n - 1 else best
  }

  lemma {:induction false} LeastIsLeast(a: seq<nat>, n: nat, k: nat)
    requires k < n <= |a|
    ensures a[FirstLeast(a, n)] <= a[k] && (k < FirstLeast(a, n) ==> a[FirstLeast(a, n)] < a[k])
  {
    if n > 1 {
      LeastIsLeast(a, n - 1, if k < n - 1 then k else 0);
      LeastIsLeast(a, n - 1, FirstLeast(a, n - 1));
    }
  }

  /** How many of the first n numbers equal v. */
  function CountOf(a: seq<nat>, n: nat, v: nat): (c: nat)
    requires n <= |a|
    ensures c <= n
  {
    if n == 0 then 0 else CountOf(a, n - 1, v) + (if a[n - 1] == v then 1 else 0)
  }

  lemma {:induction false} NoneBelowLeast(a: seq<nat>, n: nat, v: nat)
    requires n <= |a| && forall k :: 0 <= k < n ==> v < a[k]
    ensures CountOf(a, n, v) == 0
  {
    if n > 0 {
      NoneBelowLeast(a, n - 1, v);
    }
  }

  /** What the tie counter holds after the first n candidates: it starts at 0 for the first candidate, and at 1 for a
      shorter one found later. */
  function TieCount(a: seq<nat>, n: nat): nat
    requires 0 < n <= |a|
  {
    if n == 1 then 0
    else if a[n - 1] == a[FirstLeast(a, n - 1)] then TieCount(a, n - 1) + 1
    else if a[n - 1] < a[FirstLeast(a, n - 1)] then 1
    else TieCount(a, n - 1)
  }

  /** The tie counter holds the number of the shortest candidates, or one less if the first candidate is among them. */
  lemma {:induction false} TieCountIs(a: seq<nat>, n: nat)
    requires 0 < n <= |a|
    ensures var i := FirstLeast(a, n);
            TieCount(a, n) == CountOf(a, n, a[i]) - (if i == 0 then 1 else 0)
  {
    if n == 1 {
      assert CountOf(a, 0, a[0]) == 0;
    } else {
      TieCountIs(a, n - 1);
      if a[n - 1] < a[FirstLeast(a, n - 1)] {
        forall k | 0 <= k < n - 1
          ensures a[n - 1] < a[k]
        {
          LeastIsLeast(a, n - 1, k);
        }
        NoneBelowLeast(a, n - 1, a[n - 1]);
      }
    }
  }

  // ----- Resolution

  /** The result of resolving a name: the node, or an error when nothing matches or the counter shows a tie. */
  function Resolved(ms: seq<Candidate>): Option<CDFnode>
    requires AreChained(ms)
  {
    if ms == [] then None
    else if |ms| == 1 then Some(ms[0].node)
    else if TieCount(Lengths(ms), |ms|) > 1 then None
    else Some(ms[FirstLeast(Lengths(ms), |ms|)].node)
  }

  /** A result is the first of the shortest matches. */
  lemma {:induction false} ResolvedIsShortest(ms: seq<Candidate>, k: nat)
    requires AreChained(ms) && Resolved(ms).Some? && k < |ms|
    ensures var i := FirstLeast(Lengths(ms), |ms|);
            && Resolved(ms).value == ms[i].node && Length(ms[i]) <= Length(ms[k])
            && (k < i ==> Length(ms[i]) < Length(ms[k]))
  {
    LeastIsLeast(Lengths(ms), |ms|, k);
  }

  /** A name is refused iff nothing matches, or more than two matches are shortest, or two are and neither of them is
      the first match. Two shortest matches that include the first match are not reported, though they are ambiguous. */
  lemma {:induction false} RefusedIff(ms: seq<Candidate>)
    requires AreChained(ms)
    ensures Resolved(ms).None? <==>
            ms == [] ||
            var i := FirstLeast(Lengths(ms), |ms|);
            CountOf(Lengths(ms), |ms|, Length(ms[i])) > (if i == 0 then 2 else 1)
  {
    if ms != [] {
      TieCountIs(Lengths(ms), |ms|);
    }
  }

  /** A match shorter than all the others is always the result. */
  lemma {:induction false} UniqueShortestResolves(ms: seq<Candidate>, i: nat)
    requires AreChained(ms) && i < |ms| && forall k :: 0 <= k < |ms| && k != i ==> Length(ms[i]) < Length(ms[k])
    ensures Resolved(ms) == Some(ms[i].node)
  {
    var a := Lengths(ms);
    TieCountIs(a, |a|);
    LeastIsLeast(a, |a|, i);
    CountUnique(a, |a|, i);
  }

  lemma {:induction false} CountUnique(a: seq<nat>, n: nat, i: nat)
    requires i < |a| && n <= |a| && forall k :: 0 <= k < |a| && k != i ==> a[i] < a[k]
    ensures CountOf(a, n, a[i]) == if i < n then 1 else 0
  {
    if n > 0 {
      CountUnique(a, n - 1, i);
    }
  }

  // ----- What a name of one segment stands for

  /** A name stands for a sequence, a structure, a grid or an atomic variable, and a rank that it is given must be the
      node's; that of a sequence counts its records. */
  predicate CanName(node: CDFnode, rank: nat)
  {
    match node.nctype
    case Sequence => rank <= 1 || rank == |node.dimset0| + 1
    case Structure => rank == 0 || rank == |node.dimset0|
    case Grid => rank == 0 || rank == |node.dimset0|
    case Atomic => rank == 0 || rank == |node.dimset0|
    case Dataset => false
    case Dimension => false
  }

  lemma {:induction false} OneSegmentIff(c: Candidate, seg: SegmentView)
    requires c.chain != [] && c.chain[|c.chain| - 1] == c.node
    ensures IsMatch(c.node, c.chain, [seg]) <==> seg.name == c.node.ocname && CanName(c.node, seg.rank)
  {
    var path, segments := PathOf(c.chain), [seg];
    assert path[|path| - 1] == c.node;
    assert SuffixMatches(path, segments) <==> SegmentMatches(segments[0], path[|path| - |segments| + 0]);
  }

  lemma {:induction false} SoleMatches(cs: seq<Candidate>, seg: SegmentView, i: nat)
    requires AreChained(cs) && i < |cs| && cs[i].chain[|cs[i].chain| - 1] == cs[i].node
    requires forall k :: 0 <= k < |cs| && k != i ==> cs[k].node.ocname != seg.name
    ensures Matches(cs, [seg]) == if IsMatch(cs[i].node, cs[i].chain, [seg]) then [cs[i]] else []
  {
    var last := |cs| - 1;
    if i < last {
      SoleMatches(cs[..last], seg, i);
    } else {
      NoMatches(cs[..last], seg);
    }
  }

  lemma {:induction false} NoMatches(cs: seq<Candidate>, seg: SegmentView)
    requires AreChained(cs) && forall k :: 0 <= k < |cs| ==> cs[k].node.ocname != seg.name
    ensures Matches(cs, [seg]) == []
  {
    if cs != [] {
      NoMatches(cs[..|cs| - 1], seg);
    }
  }

  /** A name that only one node has is resolved to it iff the node is of a kind that can be named and the rank fits. */
  lemma {:induction false} SoleNameResolves(cs: seq<Candidate>, seg: SegmentView, i: nat)
    requires AreChained(cs) && i < |cs| && cs[i].chain[|cs[i].chain| - 1] == cs[i].node
    requires cs[i].node.ocname == seg.name
    requires forall k :: 0 <= k < |cs| && k != i ==> cs[k].node.ocname != seg.name
    ensures Resolved(Matches(cs, [seg])) == if CanName(cs[i].node, seg.rank) then Some(cs[i].node) else None
  {
    SoleMatches(cs, seg, i);
    OneSegmentIff(cs[i], seg);
  }

  /** Two structures a and b with a field x each: the name x is ambiguous, but resolves to the field of a. */
  lemma {:induction false} TieNotReported(dataset: CDFnode, a: CDFnode, b: CDFnode, ax: CDFnode, bx: CDFnode)
    requires dataset.nctype == Dataset && a.nctype == Structure && b.nctype == Structure
    requires ax.nctype == Atomic && bx.nctype == Atomic && ax.ocname == "x" && bx.ocname == "x" && ax != bx
    ensures var cs := [Candidate(ax, [dataset, a, ax]), Candidate(bx, [dataset, b, bx])];
            var segments := [SegmentView("x", false, false, 0, [], None)];
            && AreChained(cs) && Matches(cs, segments) == cs && Length(cs[0]) == Length(cs[1])
            && Resolved(Matches(cs, segments)) == Some(ax)
  {
    var cs := [Candidate(ax, [dataset, a, ax]), Candidate(bx, [dataset, b, bx])];
    var segments := [SegmentView("x", false, false, 0, [], None)];
    ShortPath(dataset, a, ax);
    ShortPath(dataset, b, bx);
    OneSegmentMatches(cs[0], segments);
    OneSegmentMatches(cs[1], segments);
    AllMatch(cs, segments);
    FirstOfTwo(cs);
  }

  lemma {:induction false} OneSegmentMatches(c: Candidate, segments: seq<SegmentView>)
    requires |segments| == 1 && c.chain != [] && c.node.nctype == Atomic
             && PathOf(c.chain)[|PathOf(c.chain)| - 1] == c.node
    requires segments[0].name == c.node.ocname && segments[0].rank == 0
    ensures IsMatch(c.node, c.chain, segments)
  {
  }

  lemma {:induction false} AllMatch(cs: seq<Candidate>, segments: seq<SegmentView>)
    requires AreChained(cs) && segments != []
    requires forall c <- cs :: IsMatch(c.node, c.chain, segments)
    ensures Matches(cs, segments) == cs
  {
    if cs != [] {
      AllMatch(cs[..|cs| - 1], segments);
      assert cs == cs[..|cs| - 1] + [cs[|cs| - 1]];
    }
  }

  /** Of two equally short matches the first is the result. */
  lemma {:induction false} FirstOfTwo(ms: seq<Candidate>)
    requires AreChained(ms) && |ms| == 2 && Length(ms[0]) == Length(ms[1])
    ensures Resolved(ms) == Some(ms[0].node)
  {
    LeastNext(Lengths(ms), 0);
    LeastNext(Lengths(ms), 1);
  }

  lemma {:induction false} ShortPath(dataset: CDFnode, container: CDFnode, node: CDFnode)
    requires dataset.nctype == Dataset && container.nctype == Structure
    ensures PathOf([dataset, container, node]) == [container, node]
  {
    var chain := [dataset, container, node];
    assert PathStart(chain, 1) == 1;
    assert PathStart(chain, 2) == 1;
  }

  // ----- The search

  /** The candidates with the name, of a kind that can be named. */
  function NameMatches(cs: seq<Candidate>, name: string): (r: seq<Candidate>)
  {
    if cs == [] then []
    else
      var c := cs[|cs| - 1];
      var before := NameMatches(cs[..|cs| - 1], name);
      if c.node.ocname == name && IsNameable(c.node) then before + [c] else before
  }

  function SuffixMatching(cs: seq<Candidate>, segments: seq<SegmentView>): (r: seq<Candidate>)
    requires AreChained(cs)
  {
    if cs == [] then []
    else
      var c := cs[|cs| - 1];
      var before := SuffixMatching(cs[..|cs| - 1], segments);
      if SuffixMatches(PathOf(c.chain), segments) then before + [c] else before
  }

  lemma {:induction false} NameMatchesChained(cs: seq<Candidate>, name: string)
    requires AreChained(cs)
    ensures AreChained(NameMatches(cs, name)) && forall c <- NameMatches(cs, name) :: c in cs
  {
    if cs != [] {
      NameMatchesChained(cs[..|cs| - 1], name);
    }
  }

  lemma {:induction false} MatchTwice(cs: seq<Candidate>, segments: seq<SegmentView>)
    requires AreChained(cs) && segments != []
    ensures AreChained(NameMatches(cs, segments[|segments| - 1].name))
    ensures SuffixMatching(NameMatches(cs, segments[|segments| - 1].name), segments) == Matches(cs, segments)
  {
    var name := segments[|segments| - 1].name;
    NameMatchesChained(cs, name);
    if cs != [] {
      var c, before := cs[|cs| - 1], NameMatches(cs[..|cs| - 1], name);
      MatchTwice(cs[..|cs| - 1], segments);
      assert (before + [c])[..|before|] == before;
    }
  }

  /** The candidates are the nodes, each with its containers. */
  predicate Describes(cs: seq<Candidate>, nodes: seq<CDFnode>, up: Parents)
  {
    |cs| == |nodes| && forall i :: 0 <= i < |cs| ==> cs[i].node == nodes[i] && IsChain(cs[i].chain, nodes[i], up)
  }

  method FindNameMatches(nodes: seq<CDFnode>, name: string, ghost cs: seq<Candidate>,
                         ghost up: Parents)
    returns (namematches: seq<CDFnode>, ghost found: seq<Candidate>)
    requires AreContainers(up) && Describes(cs, nodes, up)
    ensures found == NameMatches(cs, name) && Describes(found, namematches, up)
  {
    namematches, found := [], [];
    var i := 0;
    while i < |nodes|
      invariant 0 <= i <= |nodes|
      invariant found == NameMatches(cs[..i], name) && Describes(found, namematches, up)
    {
      var node := nodes[i];
      assert cs[..i + 1][..i] == cs[..i];
      if node.ocname == name
         && (node.nctype == Sequence || node.nctype == Structure || node.nctype == Grid || node.nctype == Atomic) {
        namematches, found := namematches + [node], found + [cs[i]];
      }
      i := i + 1;
    }
    assert cs[..|nodes|] == cs;
  }

  /** The segments have these values. */
  ghost predicate AreViews(segments: seq<DCEsegment>, views: seq<SegmentView>)
    reads segments
  {
    |views| == |segments| && forall i :: 0 <= i < |segments| ==> segments[i].View() == views[i]
  }

  /** The segments match the end of the path of the node. */
  method MatchesSuffixOf(node: CDFnode, segments: seq<DCEsegment>, ghost c: Candidate, ghost views: seq<SegmentView>,
                         ghost up: Parents) returns (matched: bool)
    requires AreContainers(up) && IsChain(c.chain, node, up) && AreViews(segments, views)
    ensures matched <==> SuffixMatches(PathOf(c.chain), views)
  {
    var matchpath := CollectNodePath(node, false, c.chain, up);
    matched := MatchSuffix(matchpath, segments, views);
  }

  lemma {:induction false} SuffixMatchingNext(cs: seq<Candidate>, segments: seq<SegmentView>, i: nat)
    requires AreChained(cs) && i < |cs|
    ensures SuffixMatching(cs[..i + 1], segments)
            == SuffixMatching(cs[..i], segments)
               + (if SuffixMatches(PathOf(cs[i].chain), segments) then [cs[i]] else [])
  {
    assert cs[..i + 1][..i] == cs[..i];
  }

  method FindSuffixMatches(nodes: seq<CDFnode>, segments: seq<DCEsegment>, ghost cs: seq<Candidate>,
                           ghost views: seq<SegmentView>, ghost up: Parents)
    returns (matches: seq<CDFnode>, ghost found: seq<Candidate>)
    requires AreContainers(up) && Describes(cs, nodes, up) && AreChained(cs) && AreViews(segments, views)
    ensures found == SuffixMatching(cs, views) && Describes(found, matches, up)
  {
    matches, found := [], [];
    var i := 0;
    while i < |nodes|
      invariant 0 <= i <= |nodes|
      invariant found == SuffixMatching(cs[..i], views) && Describes(found, matches, up)
    {
      SuffixMatchingNext(cs, views, i);
      var matched := MatchesSuffixOf(nodes[i], segments, cs[i], views, up);
      if matched {
        matches, found := matches + [nodes[i]], found + [cs[i]];
      }
      i := i + 1;
    }
    assert cs[..|nodes|] == cs;
  }

  lemma {:induction false} LeastNext(a: seq<nat>, n: nat)
    requires n < |a|
    ensures n == 0 ==> FirstLeast(a, 1) == 0 && TieCount(a, 1) == 0
    ensures n > 0 ==>
              var best := FirstLeast(a, n);
              && FirstLeast(a, n + 1) == (if a[n] < a[best] then n else best)
              && TieCount(a, n + 1)
                 == (if a[n] == a[best] then TieCount(a, n) + 1 else if a[n] < a[best] then 1 else TieCount(a, n))
  {
  }

  /** Match i is a node with its containers, and a path of the given length. */
  predicate IsMeasured(matches: seq<CDFnode>, ms: seq<Candidate>, a: seq<nat>, i: nat, up: Parents)
    requires i < |matches| == |ms| == |a|
  {
    IsChain(ms[i].chain, matches[i], up) && a[i] == Length(ms[i])
  }

  /** The first of the shortest of several matches, unless the tie counter refuses it. */
  method ChooseShortest(matches: seq<CDFnode>, ghost ms: seq<Candidate>, ghost a: seq<nat>, ghost up: Parents)
    returns (node: Option<CDFnode>)
    requires AreContainers(up) && |ms| == |a| == |matches| > 1
    requires forall i {:trigger IsMeasured(matches, ms, a, i, up)} :: 0 <= i < |a| ==> IsMeasured(matches, ms, a, i, up)
    ensures node == if TieCount(a, |a|) > 1 then None else Some(matches[FirstLeast(a, |a|)])
  {
    var minnode, minpath, nmin := matches[0], 0, 0;
    var i := 0;
    while i < |matches|
      invariant 0 <= i <= |matches|
      invariant i == 0 ==> minpath == 0 && nmin == 0
      invariant i > 0 ==> minpath == a[FirstLeast(a, i)] && minpath > 0
      invariant i > 0 ==> minnode == matches[FirstLeast(a, i)] && nmin == TieCount(a, i)
    {
      LeastNext(a, i);
      assert IsMeasured(matches, ms, a, i, up);
      var matchpath := CollectNodePath(matches[i], false, ms[i].chain, up);
      if minpath == 0 {
        minpath, minnode := |matchpath|, matches[i];
      } else if |matchpath| == minpath {
        nmin := nmin + 1;
      } else if |matchpath| < minpath {
        minpath, minnode, nmin := |matchpath|, matches[i], 1;
      }
      i := i + 1;
    }
    node := if nmin > 1 then None else Some(minnode);
  }

  /** One match is the result, none is an error, and among several the shortest is chosen. */
  method ChooseFrom(matches: seq<CDFnode>, ghost ms: seq<Candidate>, ghost up: Parents)
    returns (err: ErrCode, node: Option<CDFnode>)
    requires AreContainers(up) && Describes(ms, matches, up) && AreChained(ms)
    ensures node == Resolved(ms)
    ensures err == if node.Some? then NC_NOERR else NC_EDDS
  {
    if |matches| == 0 {
      node := None;
    } else if |matches| == 1 {
      node := Some(matches[0]);
    } else {
      node := ChooseShortest(matches, ms, Lengths(ms), up);
    }
    err := if node.Some? then NC_NOERR else NC_EDDS;
  }

  /** Find the node whose path the segments name the end of. */
  method MatchPartialName(nodes: seq<CDFnode>, segments: seq<DCEsegment>, ghost cs: seq<Candidate>,
                          ghost views: seq<SegmentView>, ghost up: Parents)
    returns (err: ErrCode, node: Option<CDFnode>)
    requires AreContainers(up) && Describes(cs, nodes, up) && AreChained(cs) && segments != []
    requires |views| == |segments| && forall i :: 0 <= i < |segments| ==> segments[i].View() == views[i]
    ensures node == Resolved(Matches(cs, views))
    ensures err == if node.Some? then NC_NOERR else NC_EDDS
  {
    var lastseg := segments[|segments| - 1];
    var namematches, matches;
    ghost var named, ms;
    namematches, named := FindNameMatches(nodes, lastseg.name, cs, up);
    MatchTwice(cs, views);
    if |namematches| == 0 {
      return NC_EDDS, None;
    }
    matches, ms := FindSuffixMatches(namematches, segments, named, views, up);
    err, node := ChooseFrom(matches, ms, up);
  }

  // ----- Completing the segments

  /** The segment put in for a node that the projection did not name. */
  function PrefixSegment(node: CDFnode): SegmentView
  {
    SegmentView(node.ocname, false, false, |node.dimset0|, ZeroSlices(NC_MAX_VAR_DIMS), Some(node))
  }

  /** The completed segment for position i of the path. */
  function CompletedAt(path: seq<CDFnode>, segments: seq<SegmentView>, i: nat): SegmentView
    requires i < |path| && |segments| <= |path|
  {
    var delta := |path| - |segments|;
    if i < delta then PrefixSegment(path[i]) else segments[i - delta].(annotation := Some(path[i]))
  }

  /** When the segments match the end of the path, completed segments carry the names and nodes of the whole path. */
  lemma {:induction false} CompletedSpellsPath(path: seq<CDFnode>, segments: seq<SegmentView>, i: nat)
    requires SuffixMatches(path, segments) && i < |path|
    ensures var seg := CompletedAt(path, segments, i);
            seg.name == path[i].ocname && seg.annotation == Some(path[i])
  {
    var delta := |path| - |segments|;
    if delta <= i {
      assert SegmentMatches(segments[i - delta], path[delta + (i - delta)]);
    }
  }

  method MakePrefixSegment(node: CDFnode) returns (seg: DCEsegment)
    requires |node.dimset0| <= NC_MAX_VAR_DIMS
    ensures fresh(seg) && seg.Valid() && seg.View() == PrefixSegment(node)
  {
    seg := new DCEsegment();
    seg.name := node.ocname;
    seg.annotation := Some(node);
    seg.rank := |node.dimset0|;
  }

  /** Insert segments for the first nodes of the path. */
  method InsertPrefix(fullpath: seq<CDFnode>, delta: nat, variable: DCEvar) returns (ghost added: seq<DCEsegment>)
    requires delta <= |fullpath| && forall n <- fullpath :: |n.dimset0| <= NC_MAX_VAR_DIMS
    modifies variable`segments
    ensures fresh(added) && |added| == delta && variable.segments == added + old(variable.segments)
    ensures AllValid(added) && Separate(added)
    ensures forall i :: 0 <= i < delta ==> added[i].View() == PrefixSegment(fullpath[i])
  {
    added := [];
    var i := 0;
    while i < delta
      invariant 0 <= i <= delta && fresh(added) && |added| == i
      invariant variable.segments == added + old(variable.segments)
      invariant AllValid(added) && Separate(added)
      invariant forall k :: 0 <= k < i ==> added[k].View() == PrefixSegment(fullpath[k])
    {
      var seg := MakePrefixSegment(fullpath[i]);
      variable.segments := variable.segments[..i] + [seg] + variable.segments[i..];
      assert added + [seg] + old(variable.segments) == variable.segments;
      added := added + [seg];
      i := i + 1;
    }
  }

  /** Annotate the segments from position delta on with the nodes of the path. */
  method Annotate(fullpath: seq<CDFnode>, delta: nat, segments: seq<DCEsegment>, ghost views: seq<SegmentView>)
    requires |segments| == |fullpath| == |views| && delta <= |segments| && AllValid(segments) && Separate(segments)
    requires forall i :: 0 <= i < |segments| ==> segments[i].View() == views[i]
    modifies segments
    ensures AllValid(segments)
    ensures forall i :: 0 <= i < |segments| ==>
              segments[i].View() == if i < delta then views[i] else views[i].(annotation := Some(fullpath[i]))
  {
    var i := delta;
    while i < |segments|
      invariant delta <= i <= |segments| && AllValid(segments)
      invariant forall k :: i <= k < |segments| ==> segments[k].View() == views[k]
      invariant forall k :: 0 <= k < i ==>
                  segments[k].View() == if k < delta then views[k] else views[k].(annotation := Some(fullpath[k]))
    {
      var seg := segments[i];
      assert seg in segments && seg.Valid();
      seg.annotation := Some(fullpath[i]);
      i := i + 1;
    }
  }

  /** Complete a variable's segments to its full path, in place. */
  method CompleteSegments(fullpath: seq<CDFnode>, variable: DCEvar, ghost views: seq<SegmentView>)
    requires |views| == |variable.segments| <= |fullpath| && AllValid(variable.segments) && Separate(variable.segments)
    requires forall i :: 0 <= i < |views| ==> variable.segments[i].View() == views[i]
    requires forall n <- fullpath :: |n.dimset0| <= NC_MAX_VAR_DIMS
    modifies variable`segments, variable.segments
    ensures |variable.segments| == |fullpath| && AllValid(variable.segments)
    ensures variable.segments[|fullpath| - |views|..] == old(variable.segments)
    ensures fresh(variable.segments[..|fullpath| - |views|])
    ensures forall i :: 0 <= i < |fullpath| ==> variable.segments[i].View() == CompletedAt(fullpath, views, i)
    ensures forall i {:trigger variable.segments[i]} :: 0 <= i < |fullpath| - |views| ==>
              && variable.segments[i].name == fullpath[i].ocname && variable.segments[i].annotation == Some(fullpath[i])
              && variable.segments[i].rank == |fullpath[i].dimset0| && !variable.segments[i].slicesdefined
    ensures forall i {:trigger variable.segments[i]} :: |fullpath| - |views| <= i < |fullpath| ==>
              variable.segments[i].View() == views[i - (|fullpath| - |views|)].(annotation := Some(fullpath[i]))
  {
    var delta := |fullpath| - |variable.segments|;
    ghost var added := InsertPrefix(fullpath, delta, variable);
    ghost var now := seq(|fullpath|, i requires 0 <= i < |fullpath| =>
      if i < delta then PrefixSegment(fullpath[i]) else views[i - delta]);
    Annotate(fullpath, delta, variable.segments, now);
  }

  /** What is chosen is among the matches, and no other match has a shorter path. */
  lemma {:induction false} ResolvedIsMatch(ms: seq<Candidate>) returns (c: Candidate)
    requires AreChained(ms) && Resolved(ms).Some?
    ensures c in ms && Resolved(ms) == Some(c.node)
    ensures forall o <- ms :: Length(c) <= Length(o)
  {
    var best := FirstLeast(Lengths(ms), |ms|);
    c := ms[best];
    forall o | o in ms
      ensures Length(c) <= Length(o)
    {
      var k :| 0 <= k < |ms| && ms[k] == o;
      ResolvedIsShortest(ms, k);
    }
  }

  /** The completed segments spell out the full path of a match. */
  predicate SpellsPath(path: seq<CDFnode>, segments: seq<SegmentView>)
  {
    |segments| <= |path|
    && forall i :: 0 <= i < |path| ==>
         && CompletedAt(path, segments, i).name == path[i].ocname
         && CompletedAt(path, segments, i).annotation == Some(path[i])
  }

  lemma {:induction false} MatchSpellsPath(c: Candidate, segments: seq<SegmentView>)
    requires c.chain != [] && segments != [] && IsMatch(c.node, c.chain, segments)
    ensures SpellsPath(PathOf(c.chain), segments)
  {
    forall i | 0 <= i < |PathOf(c.chain)|
      ensures CompletedAt(PathOf(c.chain), segments, i).name == PathOf(c.chain)[i].ocname
      ensures CompletedAt(PathOf(c.chain), segments, i).annotation == Some(PathOf(c.chain)[i])
    {
      CompletedSpellsPath(PathOf(c.chain), segments, i);
    }
  }

  /** A name that resolves does so to a node of which no other match has a shorter path, and whose full path the
      completed segments spell out. */
  lemma {:induction false} ResolvedThenCompleted(cs: seq<Candidate>, segments: seq<SegmentView>) returns (c: Candidate)
    requires AreChained(cs) && segments != [] && Resolved(Matches(cs, segments)).Some?
    ensures c in cs && Resolved(Matches(cs, segments)) == Some(c.node) && IsMatch(c.node, c.chain, segments)
    ensures forall o <- cs :: IsMatch(o.node, o.chain, segments) ==> Length(c) <= Length(o)
    ensures SpellsPath(PathOf(c.chain), segments)
  {
    c := ResolvedIsMatch(Matches(cs, segments));
    forall o | o in cs && IsMatch(o.node, o.chain, segments)
      ensures Length(c) <= Length(o)
    {
      MatchesComplete(cs, segments, o);
    }
    MatchSpellsPath(c, segments);
  }
}
