/** The cache of fetched data: a list ordered by use, limited in size and count, beside one prefetched node. */
module Cache {
  import opened Wrappers
  import opened Tree

  /** What one fetch brought in. The serial number stands for the identity of the allocated node. */
  datatype CacheNode = CacheNode(serial: nat, wholevariable: bool, xdrsize: nat, vars: seq<CDFnode>)

  datatype State = State(cachelimit: nat, cachesize: nat, cachecount: nat, prefetch: Option<CacheNode>,
                         nodes: seq<CacheNode>, serial: nat)

  /** What can happen to the cache: a search for a variable, an insertion, a prefetch. */
  datatype Event =
    | Search(target: Option<CDFnode>)
    | Insert(wholevariable: bool, xdrsize: nat, vars: seq<CDFnode>)
    | Prefetch(xdrsize: nat, vars: seq<CDFnode>)

  // ----- The steps, on values

  function TotalSize(nodes: seq<CacheNode>): nat
  {
    if nodes == [] then 0 else nodes[0].xdrsize + TotalSize(nodes[1..])
  }

  /** A node that can serve requests for the variable. */
  predicate Serves(n: CacheNode, target: CDFnode)
  {
    n.wholevariable && target in n.vars
  }

  /** The position of the latest of the first n nodes that serves the variable, or -1. */
  function LatestBelow(nodes: seq<CacheNode>, n: nat, target: CDFnode): (i: int)
    requires n <= |nodes|
    ensures -1 <= i < n
  {
    if n == 0 then -1 else if Serves(nodes[n - 1], target) then n - 1 else LatestBelow(nodes, n - 1, target)
  }

  function LatestServing(nodes: seq<CacheNode>, target: CDFnode): (i: int)
    ensures -1 <= i < |nodes|
  {
    LatestBelow(nodes, |nodes|, target)
  }

  lemma {:induction false} LatestServes(nodes: seq<CacheNode>, n: nat, target: CDFnode, j: nat)
    requires n <= |nodes|
    ensures var i := LatestBelow(nodes, n, target);
            (0 <= i ==> Serves(nodes[i], target)) && (i < j < n ==> !Serves(nodes[j], target))
  {
    if n > 0 && !Serves(nodes[n - 1], target) {
      LatestServes(nodes, n - 1, target, j);
    }
  }

  function MoveToEnd(nodes: seq<CacheNode>, i: nat): (r: seq<CacheNode>)
    requires i < |nodes|
    ensures |r| == |nodes|
  {
    nodes[..i] + nodes[i + 1..] + [nodes[i]]
  }

  predicate PrefetchHit(s: State, target: CDFnode)
  {
    s.prefetch.Some? && target in s.prefetch.value.vars
  }

  /** The list after a search of it, and the answer. */
  function ListSearch(nodes: seq<CacheNode>, target: CDFnode): (seq<CacheNode>, Option<CacheNode>)
  {
    var i := LatestServing(nodes, target);
    if i < 0 then (nodes, None) else (MoveToEnd(nodes, i), Some(nodes[i]))
  }

  /** The answer to a search, and the cache after it. */
  function SearchStep(s: State, target: Option<CDFnode>): (State, Option<CacheNode>)
  {
    if target.None? then (s, None)
    else if PrefetchHit(s, target.value) then (s, s.prefetch)
    else
      var (nodes, hit) := ListSearch(s.nodes, target.value);
      (s.(nodes := nodes), hit)
  }

  /** How many nodes the first loop removes to make room for a new one. */
  function EvictedForSize(nodes: seq<CacheNode>, added: nat, cachelimit: nat): (k: nat)
    ensures k <= |nodes|
  {
    if nodes == [] || TotalSize(nodes) + added <= cachelimit then 0
    else 1 + EvictedForSize(nodes[1..], added, cachelimit)
  }

  /** That many are enough, and fewer are not. */
  lemma {:induction false} EvictedForSizeIsMinimal(nodes: seq<CacheNode>, added: nat, cachelimit: nat, j: nat)
    requires j <= |nodes|
    ensures var k := EvictedForSize(nodes, added, cachelimit);
            && (k == |nodes| || TotalSize(nodes[k..]) + added <= cachelimit)
            && (j < k ==> cachelimit < TotalSize(nodes[j..]) + added)
  {
    var k := EvictedForSize(nodes, added, cachelimit);
    assert nodes[0..] == nodes;
    if 0 < k {
      EvictedForSizeIsMinimal(nodes[1..], added, cachelimit, if j == 0 then 0 else j - 1);
      assert nodes[1..][k - 1..] == nodes[k..];
      assert 0 < j ==> nodes[1..][j - 1..] == nodes[j..];
    }
  }

  /** How many nodes the two loops remove together. */
  function Evicted(s: State, added: nat): (k: nat)
    ensures k <= |s.nodes|
  {
    var bySize := EvictedForSize(s.nodes, added, s.cachelimit);
    if |s.nodes| - bySize > s.cachecount then |s.nodes| - s.cachecount else bySize
  }

  function InsertStep(s: State, n: CacheNode): State
  {
    var kept := s.nodes[Evicted(s, n.xdrsize)..];
    s.(nodes := kept + [n], cachesize := TotalSize(kept) + n.xdrsize, serial := s.serial + 1)
  }

  function Step(s: State, e: Event): State
  {
    match e
    case Search(target) => SearchStep(s, target).0
    case Insert(whole, xdrsize, vars) => InsertStep(s, CacheNode(s.serial, whole, xdrsize, vars))
    case Prefetch(xdrsize, vars) =>
      s.(prefetch := Some(CacheNode(s.serial, true, xdrsize, vars)), serial := s.serial + 1)
  }

  function Run(s: State, events: seq<Event>): State
    decreases |events|
  {
    if events == [] then s else Step(Run(s, events[..|events| - 1]), events[|events| - 1])
  }

  function Empty(cachelimit: nat, cachecount: nat): State
  {
    State(cachelimit, 0, cachecount, None, [], 0)
  }

  /** The listed node that an event uses: the one it inserts, or the one that answers a search. */
  function Used(s: State, e: Event): Option<CacheNode>
  {
    match e
    case Search(target) =>
      if target.None? || PrefetchHit(s, target.value) then None else SearchStep(s, target).1
    case Insert(whole, xdrsize, vars) => Some(CacheNode(s.serial, whole, xdrsize, vars))
    case Prefetch(_, _) => None
  }

  /** The time of the last event of a run that used the node, or -1. */
  function LastUse(s: State, events: seq<Event>, n: CacheNode): (t: int)
    ensures -1 <= t < |events|
    decreases |events|
  {
    if events == [] then -1
    else
      var last := |events| - 1;
      if Used(Run(s, events[..last]), events[last]) == Some(n) then last else LastUse(s, events[..last], n)
  }

  // ----- Accounting in every reachable state

  /** The listed nodes are different objects, allocated before now. */
  predicate Distinct(s: State)
  {
    && (forall i :: 0 <= i < |s.nodes| ==> s.nodes[i].serial < s.serial)
    && (forall i, j :: 0 <= i < j < |s.nodes| ==> s.nodes[i].serial != s.nodes[j].serial)
  }

  predicate Accounted(s: State)
  {
    && s.cachesize == TotalSize(s.nodes)
    && (s.cachelimit < s.cachesize ==> |s.nodes| == 1)
    && |s.nodes| <= s.cachecount + 1
    && Distinct(s)
  }

  lemma {:induction false} TotalSizeConcat(a: seq<CacheNode>, b: seq<CacheNode>)
    ensures TotalSize(a + b) == TotalSize(a) + TotalSize(b)
  {
    if a == [] {
      assert a + b == b;
    } else {
      assert (a + b)[1..] == a[1..] + b;
      TotalSizeConcat(a[1..], b);
    }
  }

  lemma {:induction false} MoveToEndKeepsSize(nodes: seq<CacheNode>, i: nat)
    requires i < |nodes|
    ensures TotalSize(MoveToEnd(nodes, i)) == TotalSize(nodes)
  {
    assert nodes == nodes[..i] + ([nodes[i]] + nodes[i + 1..]);
    TotalSizeConcat(nodes[..i], [nodes[i]] + nodes[i + 1..]);
    TotalSizeConcat([nodes[i]], nodes[i + 1..]);
    TotalSizeConcat(nodes[..i], nodes[i + 1..]);
    TotalSizeConcat(nodes[..i] + nodes[i + 1..], [nodes[i]]);
  }

  lemma {:induction false} MoveToEndAt(nodes: seq<CacheNode>, i: nat, k: nat)
    requires i < |nodes| && k < |nodes|
    ensures MoveToEnd(nodes, i)[k] == nodes[if k < i then k else if k < |nodes| - 1 then k + 1 else i]
  {
  }

  lemma {:induction false} MoveToEndKeepsDistinct(s: State, i: nat)
    requires Distinct(s) && i < |s.nodes|
    ensures Distinct(s.(nodes := MoveToEnd(s.nodes, i)))
  {
    forall k | 0 <= k < |s.nodes|
      ensures MoveToEnd(s.nodes, i)[k] == s.nodes[if k < i then k else if k < |s.nodes| - 1 then k + 1 else i]
    {
      MoveToEndAt(s.nodes, i, k);
    }
  }

  lemma {:induction false} SearchKeepsAccounts(s: State, target: Option<CDFnode>)
    requires Accounted(s)
    ensures Accounted(SearchStep(s, target).0)
  {
    if target.Some? && !PrefetchHit(s, target.value) && 0 <= LatestServing(s.nodes, target.value) {
      MoveToEndKeepsSize(s.nodes, LatestServing(s.nodes, target.value));
      MoveToEndKeepsDistinct(s, LatestServing(s.nodes, target.value));
    }
  }

  lemma {:induction false} InsertKeepsDistinct(s: State, n: CacheNode)
    requires Distinct(s) && n.serial == s.serial
    ensures Distinct(InsertStep(s, n))
  {
  }

  lemma {:induction false} InsertKeepsAccounts(s: State, n: CacheNode)
    requires Accounted(s) && n.serial == s.serial
    ensures Accounted(InsertStep(s, n))
  {
    InsertKeepsDistinct(s, n);
    var k := Evicted(s, n.xdrsize);
    TotalSizeConcat(s.nodes[k..], [n]);
    EvictedForSizeIsMinimal(s.nodes, n.xdrsize, s.cachelimit, 0);
    TailIsSmaller(s.nodes, EvictedForSize(s.nodes, n.xdrsize, s.cachelimit), k);
  }

  lemma {:induction false} StepKeepsAccounts(s: State, e: Event)
    requires Accounted(s)
    ensures Accounted(Step(s, e))
    ensures Step(s, e).cachelimit == s.cachelimit && Step(s, e).cachecount == s.cachecount
  {
    match e
    case Search(target) =>
      SearchKeepsAccounts(s, target);
    case Insert(whole, xdrsize, vars) =>
      InsertKeepsAccounts(s, CacheNode(s.serial, whole, xdrsize, vars));
    case Prefetch(xdrsize, vars) =>
  }

  lemma {:induction false} TailIsSmaller(nodes: seq<CacheNode>, i: nat, j: nat)
    requires i <= j <= |nodes|
    ensures TotalSize(nodes[j..]) <= TotalSize(nodes[i..])
  {
    assert nodes[i..] == nodes[i..j] + nodes[j..];
    TotalSizeConcat(nodes[i..j], nodes[j..]);
  }

  /** In every reachable state the recorded size is the sum over the listed nodes; it exceeds the limit only when
      the newest node is alone; and the list is at most one longer than the count limit. */
  lemma {:induction false} RunKeepsAccounts(cachelimit: nat, cachecount: nat, events: seq<Event>)
    ensures Accounted(Run(Empty(cachelimit, cachecount), events))
    ensures Run(Empty(cachelimit, cachecount), events).cachelimit == cachelimit
    ensures Run(Empty(cachelimit, cachecount), events).cachecount == cachecount
    decreases |events|
  {
    if events != [] {
      RunKeepsAccounts(cachelimit, cachecount, events[..|events| - 1]);
      StepKeepsAccounts(Run(Empty(cachelimit, cachecount), events[..|events| - 1]), events[|events| - 1]);
    }
  }

  /** An insertion removes the shortest prefix of the list after which the new node fits and the count limit holds. */
  lemma {:induction false} EvictionIsMinimal(s: State, added: nat, j: nat)
    ensures var k := Evicted(s, added);
            && (k == |s.nodes| || TotalSize(s.nodes[k..]) + added <= s.cachelimit)
            && |s.nodes| - k <= s.cachecount
            && (j < k ==> s.cachelimit < TotalSize(s.nodes[j..]) + added || s.cachecount < |s.nodes| - j)
  {
    var bySize := EvictedForSize(s.nodes, added, s.cachelimit);
    EvictedForSizeIsMinimal(s.nodes, added, s.cachelimit, if j < bySize then j else 0);
    TailIsSmaller(s.nodes, bySize, Evicted(s, added));
  }

  /** cachecount is documented as the most nodes in the cache, but the count loop runs before the new node is
      listed: the limit holds after an insertion iff fewer nodes than that were left by the size loop. */
  lemma {:induction false} CountLimitKept(s: State, n: CacheNode)
    ensures |InsertStep(s, n).nodes| <= s.cachecount
       <==> |s.nodes| - EvictedForSize(s.nodes, n.xdrsize, s.cachelimit) < s.cachecount
  {
  }

  /** With caching switched off by a count limit of 0, one node is still listed. */
  lemma {:induction false} CountLimitExceeded(cachelimit: nat, whole: bool, xdrsize: nat, vars: seq<CDFnode>)
    ensures |Run(Empty(cachelimit, 0), [Insert(whole, xdrsize, vars)]).nodes| == 1
  {
    var events := [Insert(whole, xdrsize, vars)];
    assert Run(Empty(cachelimit, 0), events[..0]) == Empty(cachelimit, 0);
  }

  // ----- The list is ordered by last use

  /** The nodes stand in the order of their last use in the run. */
  ghost predicate OrderedByUse(s0: State, events: seq<Event>, nodes: seq<CacheNode>)
  {
    && (forall i :: 0 <= i < |nodes| ==> 0 <= LastUse(s0, events, nodes[i]))
    && (forall i, j :: 0 <= i < j < |nodes| ==> LastUse(s0, events, nodes[i]) < LastUse(s0, events, nodes[j]))
  }

  /** r is nodes without the drop nodes from position cut on. */
  predicate IsThinned(nodes: seq<CacheNode>, r: seq<CacheNode>, cut: nat, drop: nat)
  {
    cut + drop <= |nodes| && r == nodes[..cut] + nodes[cut + drop..]
  }

  /** The node stands at the end of the new list, behind others of the old one. */
  predicate IsLastOf(nodes: seq<CacheNode>, after: seq<CacheNode>, n: CacheNode, cut: nat, drop: nat)
  {
    after != [] && var last := |after| - 1;
                   after[last] == n && n !in after[..last] && IsThinned(nodes, after[..last], cut, drop)
  }

  /** The listed nodes other than the one the event uses, in their order; nothing is dropped but evicted nodes. */
  lemma {:induction false} SearchThins(s: State, target: CDFnode)
    requires Distinct(s) && !PrefetchHit(s, target) && 0 <= LatestServing(s.nodes, target)
    ensures var i := LatestServing(s.nodes, target);
            IsLastOf(s.nodes, SearchStep(s, Some(target)).0.nodes, s.nodes[i], i, 1)
  {
    var i := LatestServing(s.nodes, target);
    var after := MoveToEnd(s.nodes, i);
    assert after[..|after| - 1] == s.nodes[..i] + s.nodes[i + 1..];
  }

  lemma {:induction false} InsertThins(s: State, n: CacheNode)
    requires Distinct(s) && n.serial == s.serial
    ensures IsLastOf(s.nodes, InsertStep(s, n).nodes, n, 0, Evicted(s, n.xdrsize))
  {
    var after := InsertStep(s, n).nodes;
    assert after[..|after| - 1] == s.nodes[Evicted(s, n.xdrsize)..];
  }

  lemma {:induction false} UnusedKeepsLastUse(s0: State, events: seq<Event>, n: CacheNode)
    requires events != []
    requires Used(Run(s0, events[..|events| - 1]), events[|events| - 1]) != Some(n)
    ensures LastUse(s0, events, n) == LastUse(s0, events[..|events| - 1], n)
  {
  }

  lemma {:induction false} ThinnedKeepsOrder(s0: State, events: seq<Event>, nodes: seq<CacheNode>, r: seq<CacheNode>,
                                             cut: nat, drop: nat)
    requires OrderedByUse(s0, events, nodes) && IsThinned(nodes, r, cut, drop)
    ensures OrderedByUse(s0, events, r)
  {
    forall i | 0 <= i < |r|
      ensures r[i] == nodes[if i < cut then i else i + drop]
    {
    }
  }

  /** The event at the end of a run leaves the order of the nodes that it does not use, and comes after their uses. */
  lemma {:induction false} OthersKeepOrder(s0: State, events: seq<Event>, others: seq<CacheNode>)
    requires events != [] && OrderedByUse(s0, events[..|events| - 1], others)
    requires forall i :: 0 <= i < |others| ==>
               Used(Run(s0, events[..|events| - 1]), events[|events| - 1]) != Some(others[i])
    ensures OrderedByUse(s0, events, others)
    ensures forall i :: 0 <= i < |others| ==> LastUse(s0, events, others[i]) < |events| - 1
  {
    forall i | 0 <= i < |others|
      ensures LastUse(s0, events, others[i]) == LastUse(s0, events[..|events| - 1], others[i])
    {
      UnusedKeepsLastUse(s0, events, others[i]);
    }
  }

  lemma {:induction false} NewestAtEnd(s0: State, events: seq<Event>, others: seq<CacheNode>, n: CacheNode)
    requires OrderedByUse(s0, events, others) && LastUse(s0, events, n) == |events| - 1 && events != []
    requires forall i :: 0 <= i < |others| ==> LastUse(s0, events, others[i]) < |events| - 1
    ensures OrderedByUse(s0, events, others + [n])
  {
  }

  /** An event that uses a node puts it at the end, and keeps the order of the others. */
  lemma {:induction false} UseKeepsOrder(s0: State, events: seq<Event>, nodes: seq<CacheNode>, after: seq<CacheNode>,
                                         n: CacheNode, cut: nat, drop: nat)
    requires events != [] && Used(Run(s0, events[..|events| - 1]), events[|events| - 1]) == Some(n)
    requires OrderedByUse(s0, events[..|events| - 1], nodes) && IsLastOf(nodes, after, n, cut, drop)
    ensures OrderedByUse(s0, events, after)
  {
    var others := after[..|after| - 1];
    ThinnedKeepsOrder(s0, events[..|events| - 1], nodes, others, cut, drop);
    OthersKeepOrder(s0, events, others);
    NewestAtEnd(s0, events, others, n);
    assert after == others + [n];
  }

  lemma {:induction false} EventKeepsOrder(s0: State, events: seq<Event>, s: State, e: Event)
    requires events != [] && s == Run(s0, events[..|events| - 1]) && e == events[|events| - 1]
    requires Distinct(s) && OrderedByUse(s0, events[..|events| - 1], s.nodes)
    ensures OrderedByUse(s0, events, Step(s, e).nodes)
  {
    if Used(s, e).Some? {
      match e
      case Search(target) =>
        SearchThins(s, target.value);
        UseKeepsOrder(s0, events, s.nodes, Step(s, e).nodes, Used(s, e).value, LatestServing(s.nodes, target.value), 1);
      case Insert(whole, xdrsize, vars) =>
        InsertThins(s, CacheNode(s.serial, whole, xdrsize, vars));
        UseKeepsOrder(s0, events, s.nodes, Step(s, e).nodes, Used(s, e).value, 0, Evicted(s, xdrsize));
    } else {
      OthersKeepOrder(s0, events, s.nodes);
    }
  }

  /** In every reachable state the nodes stand in the order of their last use. */
  lemma {:induction false} RunIsOrderedByUse(cachelimit: nat, cachecount: nat, events: seq<Event>)
    ensures OrderedByUse(Empty(cachelimit, cachecount), events, Run(Empty(cachelimit, cachecount), events).nodes)
    decreases |events|
  {
    if events != [] {
      var s0, before := Empty(cachelimit, cachecount), events[..|events| - 1];
      RunIsOrderedByUse(cachelimit, cachecount, before);
      RunKeepsAccounts(cachelimit, cachecount, before);
      EventKeepsOrder(s0, events, Run(s0, before), events[|events| - 1]);
    }
  }

  /** Whatever an insertion removes was last used before everything it keeps. */
  lemma {:induction false} EvictsLeastRecentlyUsed(cachelimit: nat, cachecount: nat, events: seq<Event>, added: nat,
                                                   i: nat, j: nat)
    requires var s := Run(Empty(cachelimit, cachecount), events);
             i < Evicted(s, added) <= j < |s.nodes|
    ensures var s0 := Empty(cachelimit, cachecount);
            var nodes := Run(s0, events).nodes;
            LastUse(s0, events, nodes[i]) < LastUse(s0, events, nodes[j])
  {
    RunIsOrderedByUse(cachelimit, cachecount, events);
  }

  /** The answer is the most recently used of the whole-variable nodes that hold the variable, or none if none does. */
  ghost predicate IsMostRecent(s0: State, events: seq<Event>, nodes: seq<CacheNode>, target: CDFnode,
                               hit: Option<CacheNode>)
  {
    && (hit.None? <==> forall n <- nodes :: !n.wholevariable || target !in n.vars)
    && (hit.Some? ==> hit.value in nodes && hit.value.wholevariable && target in hit.value.vars)
    && (hit.Some? ==> forall n <- nodes :: n.wholevariable && target in n.vars ==>
          LastUse(s0, events, n) <= LastUse(s0, events, hit.value))
  }

  lemma {:induction false} NoneServesLater(nodes: seq<CacheNode>, target: CDFnode)
    ensures var i := LatestServing(nodes, target);
            && (0 <= i ==> nodes[i].wholevariable && target in nodes[i].vars)
            && forall k {:trigger nodes[k]} :: 0 <= k < |nodes| && i < k ==>
                 !nodes[k].wholevariable || target !in nodes[k].vars
  {
    LatestServes(nodes, |nodes|, target, 0);
    forall k | 0 <= k < |nodes| && LatestServing(nodes, target) < k
      ensures !nodes[k].wholevariable || target !in nodes[k].vars
    {
      LatestServes(nodes, |nodes|, target, k);
    }
  }

  lemma {:induction false} LatestIsMostRecent(s0: State, events: seq<Event>, nodes: seq<CacheNode>, target: CDFnode)
    requires OrderedByUse(s0, events, nodes)
    ensures IsMostRecent(s0, events, nodes, target, ListSearch(nodes, target).1)
  {
    NoneServesLater(nodes, target);
    var i := LatestServing(nodes, target);
    if 0 <= i {
      forall n | n in nodes && n.wholevariable && target in n.vars
        ensures LastUse(s0, events, n) <= LastUse(s0, events, nodes[i])
      {
        var k :| 0 <= k < |nodes| && nodes[k] == n;
      }
      assert nodes[i] in nodes;
    }
  }

  /** A search is answered by the prefetched node if that holds the variable, else by the most recently used
      whole-variable node that does; it is unanswered iff there is neither. */
  lemma {:induction false} HitIsMostRecent(cachelimit: nat, cachecount: nat, events: seq<Event>, target: CDFnode)
    ensures var s0 := Empty(cachelimit, cachecount);
            var s := Run(s0, events);
            var hit := SearchStep(s, Some(target)).1;
            if s.prefetch.Some? && target in s.prefetch.value.vars then hit == s.prefetch
            else IsMostRecent(s0, events, s.nodes, target, hit)
  {
    var s0 := Empty(cachelimit, cachecount);
    RunIsOrderedByUse(cachelimit, cachecount, events);
    LatestIsMostRecent(s0, events, Run(s0, events).nodes, target);
  }

  /** The node is taken from its place in the list, and put at its end. */
  predicate IsMovedToEnd(nodes: seq<CacheNode>, n: CacheNode, after: seq<CacheNode>)
  {
    exists i :: 0 <= i < |nodes| && nodes[i] == n && after == nodes[..i] + nodes[i + 1..] + [n]
  }

  /** What a search finds holds the variable, and it finds something if anything listed does. A listed node that is
      found becomes the latest. */
  lemma {:induction false} SearchFinds(s: State, target: Option<CDFnode>)
    ensures var (after, hit) := SearchStep(s, target);
            && (hit.Some? ==>
                  && target.Some? && target.value in hit.value.vars
                  && ((hit == s.prefetch && after == s)
                      || (hit.value.wholevariable && IsMovedToEnd(s.nodes, hit.value, after.nodes))))
            && (hit.None? && target.Some? ==>
                  && after == s && (s.prefetch.Some? ==> target.value !in s.prefetch.value.vars)
                  && forall n <- s.nodes :: !n.wholevariable || target.value !in n.vars)
  {
    if target.Some? {
      NoneServesLater(s.nodes, target.value);
    }
  }

  // ----- The cache object

  class NCcache {
    var cachelimit: nat
    var cachesize: nat
    var cachecount: nat
    var prefetch: Option<CacheNode>
    var nodes: seq<CacheNode>
    var serial: nat

    function View(): State
      reads this
    {
      State(cachelimit, cachesize, cachecount, prefetch, nodes, serial)
    }

    predicate Valid()
      reads this
    {
      Accounted(View())
    }

    constructor (cachelimit: nat, cachecount: nat)
      ensures Valid() && View() == Empty(cachelimit, cachecount)
    {
      this.cachelimit, this.cachecount := cachelimit, cachecount;
      cachesize, prefetch, nodes, serial := 0, None, [], 0;
    }

    /** Does the node's variable list contain the target? */
    static method Holds(n: CacheNode, target: CDFnode) returns (found: bool)
      ensures found <==> target in n.vars
    {
      found := false;
      var j := 0;
      while j < |n.vars|
        invariant 0 <= j <= |n.vars|
        invariant target !in n.vars[..j]
      {
        if n.vars[j] == target {
          return true;
        }
        j := j + 1;
      }
    }

    /** Walk the list backward to the latest node that can serve the target; -1 when there is none. */
    method FindServing(target: CDFnode) returns (i: int)
      ensures i == LatestServing(nodes, target)
      ensures 0 <= i ==> nodes[i].wholevariable && target in nodes[i].vars
      ensures forall k :: 0 <= k < |nodes| && i < k ==> !nodes[k].wholevariable || target !in nodes[k].vars
    {
      i := |nodes| - 1;
      while 0 <= i
        invariant -1 <= i < |nodes|
        invariant forall k :: i < k < |nodes| ==> !nodes[k].wholevariable || target !in nodes[k].vars
        invariant LatestServing(nodes, target) == LatestBelow(nodes, i + 1, target)
      {
        if nodes[i].wholevariable {
          var found := Holds(nodes[i], target);
          if found {
            break;
          }
        }
        i := i - 1;
      }
    }

    /** Move the node at a position to the end of the list. */
    method MakeLatest(i: nat)
      requires i < |nodes|
      modifies `nodes
      ensures nodes == MoveToEnd(old(nodes), i)
    {
      if |nodes| > 1 {
        var node := nodes[i];
        nodes := nodes[..i] + nodes[i + 1..];
        nodes := nodes + [node];
      }
    }

    /** Search the list; a hit becomes its latest node. */
    method SearchNodes(target: CDFnode) returns (found: bool, cachenode: Option<CacheNode>)
      modifies `nodes
      ensures (nodes, cachenode) == ListSearch(old(nodes), target)
      ensures found <==> cachenode.Some?
    {
      found, cachenode := false, None;
      var i := FindServing(target);
      if 0 <= i {
        found, cachenode := true, Some(nodes[i]);
        MakeLatest(i);
      }
    }

    /** Search the prefetched node and then the list. */
    method SearchAll(target: Option<CDFnode>) returns (found: bool, cachenode: Option<CacheNode>)
      modifies `nodes
      ensures (View(), cachenode) == SearchStep(old(View()), target)
      ensures found <==> cachenode.Some?
    {
      found, cachenode := false, None;
      if target.None? {
        return;
      }
      if prefetch.Some? {
        found := Holds(prefetch.value, target.value);
      }
      if found {
        cachenode := prefetch;
        return;
      }
      found, cachenode := SearchNodes(target.value);
    }

    /** Search for a node that can serve the target; a hit in the list becomes its latest node. */
    method IsCached(target: Option<CDFnode>) returns (found: bool, cachenode: Option<CacheNode>)
      requires Valid()
      modifies `nodes
      ensures Valid()
      ensures (View(), cachenode) == SearchStep(old(View()), target)
      ensures found <==> cachenode.Some?
      ensures found ==>
                && target.Some? && target.value in cachenode.value.vars
                && ((cachenode == prefetch && nodes == old(nodes))
                    || (cachenode.value.wholevariable && IsMovedToEnd(old(nodes), cachenode.value, nodes)))
      ensures !found && target.Some? ==>
                && nodes == old(nodes) && (prefetch.Some? ==> target.value !in prefetch.value.vars)
                && forall n <- nodes :: !n.wholevariable || target.value !in n.vars
    {
      SearchKeepsAccounts(View(), target);
      SearchFinds(View(), target);
      found, cachenode := SearchAll(target);
    }

    /** Remove nodes to get below the size limit with the addition, then to get below the count limit. */
    method MakeRoom(xdrsize: nat)
      requires cachesize == TotalSize(nodes)
      modifies `nodes, `cachesize
      ensures nodes == old(nodes)[Evicted(old(View()), xdrsize)..]
      ensures cachesize == TotalSize(nodes)
    {
      ghost var k := 0;
      while cachesize + xdrsize > cachelimit && |nodes| > 0
        invariant 0 <= k <= |old(nodes)| && nodes == old(nodes)[k..] && cachesize == TotalSize(nodes)
        invariant EvictedForSize(old(nodes), xdrsize, cachelimit) == k + EvictedForSize(nodes, xdrsize, cachelimit)
        decreases |nodes|
      {
        var node := nodes[0];
        nodes := nodes[1..];
        cachesize := cachesize - node.xdrsize;
        k := k + 1;
      }
      ghost var bySize := k;
      while |nodes| > cachecount
        invariant bySize <= k <= |old(nodes)| && nodes == old(nodes)[k..] && cachesize == TotalSize(nodes)
        invariant bySize < k ==> k <= |old(nodes)| - cachecount
        decreases |nodes|
      {
        var node := nodes[0];
        nodes := nodes[1..];
        cachesize := cachesize - node.xdrsize;
        k := k + 1;
      }
    }

    /** Insert the result of a fetch as the latest node. */
    method InsertNode(wholevariable: bool, xdrsize: nat, vars: seq<CDFnode>) returns (cachenode: CacheNode)
      requires Valid()
      modifies this
      ensures Valid()
      ensures View() == Step(old(View()), Insert(wholevariable, xdrsize, vars))
      ensures nodes != [] && cachenode == nodes[|nodes| - 1]
      ensures cachenode == CacheNode(old(serial), wholevariable, xdrsize, vars)
    {
      StepKeepsAccounts(View(), Insert(wholevariable, xdrsize, vars));
      cachenode := CacheNode(serial, wholevariable, xdrsize, vars);
      serial := serial + 1;
      MakeRoom(xdrsize);
      assert nodes == old(nodes)[Evicted(old(View()), xdrsize)..];
      nodes := nodes + [cachenode];
      cachesize := cachesize + xdrsize;
    }

    /** Keep the result of a prefetch apart from the list. */
    method SetPrefetch(xdrsize: nat, vars: seq<CDFnode>)
      requires Valid()
      modifies `prefetch, `serial
      ensures Valid()
      ensures View() == Step(old(View()), Prefetch(xdrsize, vars))
      ensures prefetch == Some(CacheNode(old(serial), true, xdrsize, vars)) && nodes == old(nodes)
    {
      StepKeepsAccounts(View(), Prefetch(xdrsize, vars));
      prefetch := Some(CacheNode(serial, true, xdrsize, vars));
      serial := serial + 1;
    }
  }
}
