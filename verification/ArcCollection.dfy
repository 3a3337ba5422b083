/** The walk that collects a function's arcs, with a queue that may hold a block more than once. */
module ArcCollection {
  /** Blocks are numbered in layout order; the entry is block 0. */
  datatype Graph = Graph(blocks: nat, succs: nat -> seq<nat>, weight: (nat, nat) -> real)

  datatype Arc = Arc(head: nat, tail: nat, weight: real)

  ghost predicate Valid(g: Graph) {
    g.blocks > 0 && forall b, i :: 0 <= b < g.blocks && 0 <= i < |g.succs(b)| ==> g.succs(b)[i] < g.blocks
  }

  ghost predicate IsPath(g: Graph, p: seq<nat>) {
    |p| > 0 && p[0] == 0 && forall i :: 0 < i < |p| ==> p[i] in g.succs(p[i - 1])
  }

  ghost predicate Reachable(g: Graph, b: nat) { exists p :: IsPath(g, p) && p[|p| - 1] == b }

  lemma ReachableNext(g: Graph, b: nat, c: nat)
    requires Reachable(g, b) && c in g.succs(b)
    ensures Reachable(g, c)
  {
    var p :| IsPath(g, p) && p[|p| - 1] == b;
    var q := p + [c];
    assert IsPath(g, q) && q[|q| - 1] == c;
  }

  lemma ReachableEntry(g: Graph)
    ensures Reachable(g, 0)
  {
    assert IsPath(g, [0]) && [0][|[0]| - 1] == 0;
  }

  /** A set with the entry that is closed under successors holds all that is reachable. */
  lemma {:induction false} ClosedHasPath(g: Graph, s: set<nat>, p: seq<nat>)
    requires IsPath(g, p) && 0 in s && forall b, c :: b in s && c in g.succs(b) ==> c in s
    ensures p[|p| - 1] in s
  {
    if |p| > 1 {
      assert IsPath(g, p[..|p| - 1]);
      ClosedHasPath(g, s, p[..|p| - 1]);
    }
  }

  predicate Descending(arcs: seq<Arc>) { forall i, j :: 0 <= i < j < |arcs| ==> arcs[i].weight >= arcs[j].weight }

  /** Puts an arc before the first one that is not heavier. */
  method InsertArc(arcs: seq<Arc>, arc: Arc) returns (r: seq<Arc>, ghost at: nat)
    requires Descending(arcs)
    ensures Descending(r) && multiset(r) == multiset(arcs) + multiset{arc}
    ensures at <= |arcs| && r == arcs[..at] + [arc] + arcs[at..]
    ensures forall k :: 0 <= k < |arcs| ==> (k < at <==> arcs[k].weight > arc.weight)
  {
    var i := 0;
    while i < |arcs| && arc.weight < arcs[i].weight
      invariant 0 <= i <= |arcs| && forall k :: 0 <= k < i ==> arc.weight < arcs[k].weight
    {
      i := i + 1;
    }
    assert arcs == arcs[..i] + arcs[i..];
    r, at := arcs[..i] + [arc] + arcs[i..], i;
  }

  // ----- the order of the list -----

  /** The arcs that leave a block, in the order of its successors. */
  function ArcsOf(g: Graph, b: nat): (r: seq<Arc>)
    ensures |r| == |g.succs(b)|
    ensures forall i :: 0 <= i < |r| ==> r[i] == Arc(b, g.succs(b)[i], g.weight(b, g.succs(b)[i]))
  {
    var ss := g.succs(b);
    seq(|ss|, i requires 0 <= i < |ss| => Arc(b, ss[i], g.weight(b, ss[i])))
  }

  /** The arcs in the order in which they are found when the blocks are taken from the queue in the order of `pops`. */
  function Found(g: Graph, pops: seq<nat>): seq<Arc> {
    if pops == [] then [] else Found(g, pops[..|pops| - 1]) + ArcsOf(g, pops[|pops| - 1])
  }

  function Unseen(ss: seq<nat>, visited: set<nat>): seq<nat> {
    if ss == [] then [] else
    Unseen(ss[..|ss| - 1], visited) + if ss[|ss| - 1] in visited then [] else [ss[|ss| - 1]]
  }

  function SetOf(s: seq<nat>): set<nat> { set b | b in s }

  /** The blocks that come into the queue: the successors of each block taken from it that was not taken before. */
  function Queued(g: Graph, pops: seq<nat>): seq<nat> {
    if pops == [] then [] else Queued(g, pops[..|pops| - 1]) + Unseen(g.succs(pops[|pops| - 1]), SetOf(pops))
  }

  /** The arcs are those found, the heaviest first, and of equally heavy ones the last found first; `rank` tells which. */
  ghost predicate Ranked(found: seq<Arc>, rank: seq<nat>, arcs: seq<Arc>) {
    && |found| == |rank| == |arcs|
    && (forall k :: 0 <= k < |rank| ==> rank[k] < |found| && arcs[k] == found[rank[k]])
    && forall k, l :: 0 <= k < l < |rank| ==>
      rank[k] != rank[l] && (arcs[k].weight > arcs[l].weight || (arcs[k].weight == arcs[l].weight && rank[k] > rank[l]))
  }

  lemma RankedMore(found: seq<Arc>, rank: seq<nat>, arcs: seq<Arc>, arc: Arc, at: nat)
    requires Ranked(found, rank, arcs) && at <= |arcs|
    requires forall k :: 0 <= k < |arcs| ==> (k < at <==> arcs[k].weight > arc.weight)
    ensures Ranked(found + [arc], rank[..at] + [|found|] + rank[at..], arcs[..at] + [arc] + arcs[at..])
  {
    var r, s := rank[..at] + [|found|] + rank[at..], arcs[..at] + [arc] + arcs[at..];
    forall k | 0 <= k < |r| ensures r[k] < |found| + 1 && s[k] == (found + [arc])[r[k]] {
      RankedAt(rank, arcs, |found|, arc, at, k);
    }
    forall k, l | 0 <= k < l < |r|
      ensures r[k] != r[l] && (s[k].weight > s[l].weight || (s[k].weight == s[l].weight && r[k] > r[l]))
    {
      RankedAt(rank, arcs, |found|, arc, at, k);
      RankedAt(rank, arcs, |found|, arc, at, l);
    }
  }

  lemma RankedAt(rank: seq<nat>, arcs: seq<Arc>, n: nat, arc: Arc, at: nat, k: nat)
    requires |rank| == |arcs| && at <= |arcs| && k <= |arcs|
    ensures var r, s := rank[..at] + [n] + rank[at..], arcs[..at] + [arc] + arcs[at..];
      |r| == |s| == |arcs| + 1
      && if k == at then r[k] == n && s[k] == arc
         else r[k] == rank[if k < at then k else k - 1] && s[k] == arcs[if k < at then k else k - 1]
  {
  }

  /** The blocks taken from the queue and those in it are all that came into it. */
  ghost predicate Popping(g: Graph, pops: seq<nat>, queue: seq<nat>, visited: set<nat>) {
    pops + queue == [0] + Queued(g, pops) && visited == SetOf(pops)
  }

  lemma PoppedOne(g: Graph, pops: seq<nat>, queue: seq<nat>, visited: set<nat>)
    requires Popping(g, pops, queue, visited) && queue != []
    ensures var b, v := queue[0], visited + {queue[0]};
      && Found(g, pops + [b]) == Found(g, pops) + ArcsOf(g, b)
      && Popping(g, pops + [b], queue[1..] + Unseen(g.succs(b), v), v)
  {
    var b := queue[0];
    assert (pops + [b])[..|pops|] == pops;
    assert SetOf(pops + [b]) == visited + {b};
    Regrouped(pops, queue, Queued(g, pops), Unseen(g.succs(b), visited + {b}));
  }

  lemma Regrouped(pops: seq<nat>, queue: seq<nat>, queued: seq<nat>, more: seq<nat>)
    requires pops + queue == [0] + queued && queue != []
    ensures pops + [queue[0]] + (queue[1..] + more) == [0] + (queued + more)
  {
    assert pops + [queue[0]] + (queue[1..] + more) == pops + queue + more;
  }

  /** The arc list of an edge. */
  predicate HasArc(g: Graph, arcs: seq<Arc>, b: nat, c: nat) { Arc(b, c, g.weight(b, c)) in arcs }

  ghost predicate OnlyArcs(g: Graph, arcs: seq<Arc>) {
    forall a | a in arcs :: a.tail in g.succs(a.head) && a.weight == g.weight(a.head, a.tail) && a.head < g.blocks
  }

  /** The blocks at the front of the queue that were visited before. */
  function Stale(queue: seq<nat>, visited: set<nat>): (n: nat)
    ensures n <= |queue|
  {
    if queue == [] || queue[0] !in visited then 0 else 1 + Stale(queue[1..], visited)
  }

  lemma {:induction false} StaleStays(queue: seq<nat>, more: seq<nat>, visited: set<nat>)
    requires forall b | b in more :: b !in visited
    ensures Stale(queue + more, visited) == Stale(queue, visited)
  {
    if queue == [] {
      assert queue + more == more;
    } else {
      assert (queue + more)[1..] == queue[1..] + more;
      StaleStays(queue[1..], more, visited);
    }
  }

  function All(n: nat): (s: set<nat>)
    ensures forall b: nat :: b in s <==> b < n
  {
    if n == 0 then {} else All(n - 1) + {n - 1}
  }

  /** What every step of the walk keeps. */
  ghost predicate Walking(g: Graph, queue: seq<nat>, visited: set<nat>, arcs: seq<Arc>) {
    && visited <= All(g.blocks) && Descending(arcs) && OnlyArcs(g, arcs)
    && (forall b | b in queue :: b < g.blocks && Reachable(g, b))
    && (forall b | b in visited :: Reachable(g, b))
    && (forall a | a in arcs :: a.head in visited)
    && (forall b, c | b in visited && c in g.succs(b) :: HasArc(g, arcs, b, c) && (c in visited || c in queue))
    && (0 in visited || 0 in queue)
  }

  /** Adds the arcs of a block, and the successors that were not visited before to the queue. */
  method VisitSuccessors(g: Graph, curr: nat, visited: set<nat>, arcs0: seq<Arc>, ghost found: seq<Arc>, ghost rank0: seq<nat>)
    returns (arcs: seq<Arc>, more: seq<nat>, ghost rank: seq<nat>)
    requires Ranked(found, rank0, arcs0)
    requires Valid(g) && curr < g.blocks && curr in visited && Descending(arcs0) && OnlyArcs(g, arcs0)
    ensures Descending(arcs) && OnlyArcs(g, arcs) && forall a | a in arcs0 :: a in arcs
    ensures forall a | a in arcs :: a in arcs0 || a.head == curr
    ensures forall c | c in g.succs(curr) :: HasArc(g, arcs, curr, c) && (c in visited || c in more)
    ensures forall c | c in more :: c in g.succs(curr) && c !in visited
    ensures more == Unseen(g.succs(curr), visited) && Ranked(found + ArcsOf(g, curr), rank, arcs)
  {
    hide Ranked, ArcsOf, Descending, OnlyArcs, HasArc, Unseen;
    arcs, more, rank := arcs0, [], rank0;
    var ss, i := g.succs(curr), 0;
    UnseenNone(ss, visited);
    assert found + ArcsOf(g, curr)[..0] == found;
    while i < |ss|
      invariant 0 <= i <= |ss| && Descending(arcs) && multiset(arcs) == multiset(arcs0) + multiset(ArcsOf(g, curr)[..i])
      invariant more == Unseen(ss[..i], visited) && Ranked(found + ArcsOf(g, curr)[..i], rank, arcs)
    {
      var arc := Arc(curr, ss[i], g.weight(curr, ss[i]));
      var r, at := InsertArc(arcs, arc);
      rank := RankedNext(g, curr, i, found, rank, arcs, at);
      assert ArcsOf(g, curr)[..i + 1] == ArcsOf(g, curr)[..i] + [arc];
      UnseenNext(ss, visited, i);
      arcs := r;
      if ss[i] !in visited { more := more + [ss[i]]; }
      i := i + 1;
    }
    assert ss[..i] == ss && ArcsOf(g, curr)[..i] == ArcsOf(g, curr);
    UnseenHas(ss, visited);
    ArcsMore(g, curr, arcs0, arcs);
  }

  lemma UnseenNone(ss: seq<nat>, visited: set<nat>)
    ensures ss[..0] == [] && Unseen([], visited) == []
  {
  }

  lemma UnseenNext(ss: seq<nat>, visited: set<nat>, i: nat)
    requires i < |ss|
    ensures Unseen(ss[..i + 1], visited) == Unseen(ss[..i], visited) + if ss[i] in visited then [] else [ss[i]]
  {
    assert ss[..i + 1][..i] == ss[..i];
  }

  lemma {:induction false} UnseenHas(ss: seq<nat>, visited: set<nat>)
    ensures forall c :: c in Unseen(ss, visited) <==> c in ss && c !in visited
  {
    if ss != [] {
      UnseenHas(ss[..|ss| - 1], visited);
      assert ss == ss[..|ss| - 1] + [ss[|ss| - 1]];
    }
  }

  lemma ArcsMore(g: Graph, b: nat, arcs0: seq<Arc>, arcs: seq<Arc>)
    requires OnlyArcs(g, arcs0) && b < g.blocks && multiset(arcs) == multiset(arcs0) + multiset(ArcsOf(g, b))
    ensures OnlyArcs(g, arcs) && forall a | a in arcs0 :: a in arcs
    ensures forall a | a in arcs :: a in arcs0 || a.head == b
    ensures forall c | c in g.succs(b) :: HasArc(g, arcs, b, c)
  {
    forall a ensures a in arcs <==> a in arcs0 || a in ArcsOf(g, b) {
      assert a in arcs <==> a in multiset(arcs);
      assert a in arcs0 <==> a in multiset(arcs0);
      assert a in ArcsOf(g, b) <==> a in multiset(ArcsOf(g, b));
    }
    forall c | c in g.succs(b) ensures HasArc(g, arcs, b, c) {
      var i :| 0 <= i < |g.succs(b)| && g.succs(b)[i] == c;
      assert ArcsOf(g, b)[i] in ArcsOf(g, b);
    }
  }

  lemma RankedNext(g: Graph, b: nat, i: nat, found: seq<Arc>, rank: seq<nat>, arcs: seq<Arc>, at: nat) returns (next: seq<nat>)
    requires i < |g.succs(b)| && Ranked(found + ArcsOf(g, b)[..i], rank, arcs) && at <= |arcs|
    requires forall k :: 0 <= k < |arcs| ==> (k < at <==> arcs[k].weight > ArcsOf(g, b)[i].weight)
    ensures Ranked(found + ArcsOf(g, b)[..i + 1], next, arcs[..at] + [ArcsOf(g, b)[i]] + arcs[at..])
  {
    next := rank[..at] + [|found + ArcsOf(g, b)[..i]|] + rank[at..];
    RankedMore(found + ArcsOf(g, b)[..i], rank, arcs, ArcsOf(g, b)[i], at);
    assert found + ArcsOf(g, b)[..i + 1] == found + ArcsOf(g, b)[..i] + [ArcsOf(g, b)[i]];
  }

  lemma StartsEmpty(g: Graph)
    requires Valid(g) && Reachable(g, 0)
    ensures Walking(g, [0], {}, [])
  {
    hide Reachable;
  }

  lemma WalkOn(g: Graph, queue: seq<nat>, visited: set<nat>, arcs0: seq<Arc>, more: seq<nat>, arcs: seq<Arc>)
    requires Valid(g) && queue != [] && Walking(g, queue, visited, arcs0)
    requires Descending(arcs) && OnlyArcs(g, arcs) && forall a | a in arcs0 :: a in arcs
    requires forall a | a in arcs :: a in arcs0 || a.head == queue[0]
    requires forall c | c in g.succs(queue[0]) :: HasArc(g, arcs, queue[0], c) && (c in visited + {queue[0]} || c in more)
    requires forall c | c in more :: c in g.succs(queue[0]) && c !in visited + {queue[0]}
    ensures Walking(g, queue[1..] + more, visited + {queue[0]}, arcs)
  {
    hide Reachable, OnlyArcs, Descending;
    var curr := queue[0];
    assert queue == [curr] + queue[1..];
    var q, v := queue[1..] + more, visited + {curr};
    forall x ensures x in q <==> x in queue[1..] || x in more {}
    forall x | x in queue ensures x == curr || x in q {}
    assert curr in queue && v <= All(g.blocks);
    assert 0 in v || 0 in q;
    forall b | b in q && b !in more ensures b < g.blocks && Reachable(g, b) { assert b in queue; }
    forall b, c | b in v && c in g.succs(b) ensures HasArc(g, arcs, b, c) && (c in v || c in q) {
      if b != curr { assert HasArc(g, arcs0, b, c); }
    }
    forall c | c in more ensures c < g.blocks && Reachable(g, c) {
      ReachableNext(g, curr, c);
      var i :| 0 <= i < |g.succs(curr)| && g.succs(curr)[i] == c;
    }
  }

  /** A pop finds a new block, or shortens the stale front of the queue. */
  lemma WalkShrinks(g: Graph, queue: seq<nat>, visited: set<nat>, more: seq<nat>)
    requires queue != [] && queue[0] < g.blocks && forall c | c in more :: c !in visited + {queue[0]}
    ensures var v := visited + {queue[0]};
      if queue[0] in visited then v == visited && Stale(queue[1..] + more, v) < Stale(queue, visited)
      else |All(g.blocks) - v| < |All(g.blocks) - visited|
  {
    var v := visited + {queue[0]};
    if queue[0] in visited {
      assert v == visited;
      StaleStays(queue[1..], more, v);
    } else {
      assert All(g.blocks) - visited == (All(g.blocks) - v) + {queue[0]};
    }
  }

  lemma ReachedIsVisited(g: Graph, visited: set<nat>, arcs: seq<Arc>, b: nat)
    requires Walking(g, [], visited, arcs) && Reachable(g, b)
    ensures b in visited
  {
    var p :| IsPath(g, p) && p[|p| - 1] == b;
    ClosedHasPath(g, visited, p);
  }

  /**
   * Visits exactly the reachable blocks, and lists every arc that leaves them, the heaviest first and of equally
   * heavy ones the last found first. `pops` is the order in which blocks are taken from the queue.
   */
  method CollectArcs(g: Graph) returns (visited: set<nat>, arcs: seq<Arc>, ghost pops: seq<nat>, ghost rank: seq<nat>)
    requires Valid(g)
    ensures forall b: nat :: b in visited <==> Reachable(g, b)
    ensures Descending(arcs) && OnlyArcs(g, arcs) && forall b, c | b in visited && c in g.succs(b) :: HasArc(g, arcs, b, c)
    ensures forall a | a in arcs :: a.head in visited
    ensures pops == [0] + Queued(g, pops) && visited == SetOf(pops) && Ranked(Found(g, pops), rank, arcs)
  {
    hide Reachable, OnlyArcs, Descending, HasArc, Walking, Valid, Ranked, Found, Unseen, Popping;
    var queue: seq<nat> := [0];
    visited, arcs := {}, [];
    pops, rank := [], [];
    NothingPopped(g);
    ReachableEntry(g);
    StartsEmpty(g);
    while queue != []
      invariant Walking(g, queue, visited, arcs)
      invariant Popping(g, pops, queue, visited) && Ranked(Found(g, pops), rank, arcs)
      decreases |All(g.blocks) - visited|, Stale(queue, visited)
    {
      ghost var queue0, visited0, arcs0 := queue, visited, arcs;
      FrontInGraph(g, queue, visited, arcs);
      var curr := queue[0];
      queue := queue[1..];
      visited := visited + {curr};
      PoppedOne(g, pops, queue0, visited0);
      var more;
      arcs, more, rank := VisitSuccessors(g, curr, visited, arcs, Found(g, pops), rank);
      pops := pops + [curr];
      WalkOn(g, queue0, visited0, arcs0, more, arcs);
      WalkShrinks(g, queue0, visited0, more);
      queue := queue + more;
    }
    PoppedAll(g, pops, visited);
    WalkEnds(g, visited, arcs);
    forall b: nat | Reachable(g, b) ensures b in visited { ReachedIsVisited(g, visited, arcs, b); }
  }

  lemma PoppedAll(g: Graph, pops: seq<nat>, visited: set<nat>)
    requires Popping(g, pops, [], visited)
    ensures pops == [0] + Queued(g, pops) && visited == SetOf(pops)
  {
    assert pops + [] == pops;
  }

  lemma NothingPopped(g: Graph)
    ensures Popping(g, [], [0], {}) && Ranked(Found(g, []), [], [])
  {
  }

  lemma FrontInGraph(g: Graph, queue: seq<nat>, visited: set<nat>, arcs: seq<Arc>)
    requires Walking(g, queue, visited, arcs) && queue != []
    ensures queue[0] < g.blocks && Descending(arcs) && OnlyArcs(g, arcs)
  {
    assert queue[0] in queue;
  }

  lemma WalkEnds(g: Graph, visited: set<nat>, arcs: seq<Arc>)
    requires Walking(g, [], visited, arcs)
    ensures Descending(arcs) && OnlyArcs(g, arcs) && forall b | b in visited :: Reachable(g, b)
    ensures forall b, c | b in visited && c in g.succs(b) :: HasArc(g, arcs, b, c)
    ensures forall a | a in arcs :: a.head in visited
  {
  }
}
