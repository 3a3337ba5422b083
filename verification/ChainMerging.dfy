/** Chains of blocks, merged along the heaviest arcs. */
module ChainMerging {
  import opened ArcCollection

  /** All blocks of the chains, as often as they occur. */
  function Contents(chains: seq<seq<nat>>): multiset<nat> {
    if chains == [] then multiset{} else Contents(chains[..|chains| - 1]) + multiset(chains[|chains| - 1])
  }

  lemma {:induction false} ContentsUpdate(chains: seq<seq<nat>>, i: nat, c: seq<nat>)
    requires i < |chains|
    ensures Contents(chains[i := c]) + multiset(chains[i]) == Contents(chains) + multiset(c)
  {
    var n := |chains| - 1;
    if i == n {
      assert chains[i := c][..n] == chains[..n];
    } else {
      ContentsUpdate(chains[..n], i, c);
      assert chains[i := c][..n] == chains[..n][i := c] && chains[i := c][n] == chains[n] && chains[..n][i] == chains[i];
      AddedBoth(Contents(chains[..n][i := c]), Contents(chains[..n]), multiset(chains[i]), multiset(c), multiset(chains[n]));
    }
  }

  lemma AddedBoth(x: multiset<nat>, y: multiset<nat>, a: multiset<nat>, b: multiset<nat>, c: multiset<nat>)
    requires x + a == y + b
    ensures (x + c) + a == (y + c) + b
  {
    assert (x + c) + a == (x + a) + c && (y + c) + b == (y + b) + c;
  }

  /** Neighbours in a chain are joined by an arc. */
  predicate Linked(g: Graph, c: seq<nat>) { forall k :: 0 < k < |c| ==> c[k] in g.succs(c[k - 1]) }

  /** Only at its head does a chain hold the entry. */
  predicate EntryFirst(c: seq<nat>) { forall k :: 0 < k < |c| ==> c[k] != 0 }

  /** Every block is in the chains exactly as often as at the start, chains follow arcs, and the entry begins its chain. */
  ghost predicate Good(g: Graph, chains: seq<seq<nat>>, all: multiset<nat>) {
    Contents(chains) == all && forall i :: 0 <= i < |chains| ==> Linked(g, chains[i]) && EntryFirst(chains[i])
  }

  /** How many blocks move: the loop's bound shrinks with the chain it takes from. */
  function Front(n: nat): (h: nat)
    ensures n <= 2 * h <= n + 1
  {
    (n + 1) / 2
  }

  /** Takes blocks from the front of one chain to the end of another one, until the counter meets the shrinking size. */
  method AppendFront(to: seq<nat>, from: seq<nat>) returns (longer: seq<nat>, rest: seq<nat>)
    ensures longer == to + from[..Front(|from|)] && rest == from[Front(|from|)..]
    ensures longer + rest == to + from && |rest| <= |longer| - |to| <= |rest| + 1
  {
    longer, rest := to, from;
    var k := 0;
    while k < |rest|
      invariant 0 <= k <= Front(|from|) && longer == to + from[..k] && rest == from[k..]
    {
      longer := longer + [rest[0]];
      rest := rest[1..];
      k := k + 1;
    }
  }

  lemma Moved(g: Graph, chains: seq<seq<nat>>, all: multiset<nat>, i: nat, j: nat, h: nat)
    requires Good(g, chains, all) && i < |chains| && j < |chains| && i != j
    requires chains[j] != [] && 0 < h <= |chains[i]|
    requires chains[i][0] in g.succs(chains[j][|chains[j]| - 1]) && chains[i][0] != 0
    ensures Good(g, chains[j := chains[j] + chains[i][..h]][i := chains[i][h..]], all)
  {
    MovedContents(chains, i, j, h);
    MovedLinks(g, chains[i], chains[j], h);
    hide Contents, Linked, EntryFirst;
    var r := chains[j := chains[j] + chains[i][..h]][i := chains[i][h..]];
    forall k | 0 <= k < |r| ensures Linked(g, r[k]) && EntryFirst(r[k]) {}
  }

  lemma MovedContents(chains: seq<seq<nat>>, i: nat, j: nat, h: nat)
    requires i < |chains| && j < |chains| && i != j && h <= |chains[i]|
    ensures Contents(chains[j := chains[j] + chains[i][..h]][i := chains[i][h..]]) == Contents(chains)
  {
    hide Contents;
    var ci, cj := chains[i], chains[j];
    var longer, rest := cj + ci[..h], ci[h..];
    assert ci == ci[..h] + rest;
    ContentsUpdate(chains, j, longer);
    ContentsUpdate(chains[j := longer], i, rest);
    Balance(Contents(chains), Contents(chains[j := longer]), Contents(chains[j := longer][i := rest]),
      multiset(cj), multiset(ci[..h]), multiset(rest));
  }

  lemma Balance(x: multiset<nat>, y: multiset<nat>, z: multiset<nat>, a: multiset<nat>, b: multiset<nat>, c: multiset<nat>)
    requires y + a == x + (a + b) && z + (b + c) == y + c
    ensures z == x
  {
    forall e ensures z[e] == x[e] {
      assert (y + a)[e] == y[e] + a[e] && (x + (a + b))[e] == x[e] + a[e] + b[e];
      assert (z + (b + c))[e] == z[e] + b[e] + c[e] && (y + c)[e] == y[e] + c[e];
    }
  }

  lemma MovedLinks(g: Graph, from: seq<nat>, to: seq<nat>, h: nat)
    requires Linked(g, from) && Linked(g, to) && EntryFirst(from) && EntryFirst(to)
    requires to != [] && 0 < h <= |from| && from[0] in g.succs(to[|to| - 1]) && from[0] != 0
    ensures Linked(g, to + from[..h]) && EntryFirst(to + from[..h]) && Linked(g, from[h..]) && EntryFirst(from[h..])
  {
  }

  predicate Joins(g: Graph, a: Arc) { a.tail in g.succs(a.head) && a.tail != 0 }

  /** Chain `i` begins at the arc's tail, and chain `j` ends at its head. */
  predicate Fits(chains: seq<seq<nat>>, a: Arc, i: nat, j: nat) {
    && i < |chains| && j < |chains| && i != j && chains[i] != [] && chains[j] != []
    && chains[i][0] == a.tail && chains[j][|chains[j]| - 1] == a.head
  }

  /** The front of chain `i` moved to the end of chain `j`. */
  function MovedFront(chains: seq<seq<nat>>, i: nat, j: nat): (r: seq<seq<nat>>)
    requires i < |chains| && j < |chains|
    ensures |r| == |chains|
  {
    var h := Front(|chains[i]|);
    chains[j := chains[j] + chains[i][..h]][i := chains[i][h..]]
  }

  /** Blocks go from the front of one chain to the end of the other, half of them or one more, and all other chains stay. */
  lemma HalfMoves(chains: seq<seq<nat>>, i: nat, j: nat)
    requires i < |chains| && j < |chains| && i != j
    ensures var r := MovedFront(chains, i, j);
      && r[j] + r[i] == chains[j] + chains[i] && |r[i]| <= |r[j]| - |chains[j]| <= |r[i]| + 1
      && forall k :: 0 <= k < |chains| && k != i && k != j ==> r[k] == chains[k]
  {
  }

  ghost predicate NoneFits(chains: seq<seq<nat>>, a: Arc) { forall i: nat, j: nat :: !Fits(chains, a, i, j) }

  /** What one arc does: if it leads from the end of a chain to the head of another one, the other one's front moves. */
  ghost predicate MergedOnce(a: Arc, before: seq<seq<nat>>, after: seq<seq<nat>>) {
    || (after == before && NoneFits(before, a))
    || (exists i: nat, j: nat :: Fits(before, a, i, j) && after == MovedFront(before, i, j))
  }

  /** What a list of arcs does, one after the other. */
  ghost predicate Merged(arcs: seq<Arc>, before: seq<seq<nat>>, after: seq<seq<nat>>)
    decreases |arcs|, 0
  {
    if arcs == [] then after == before else MergedThen(arcs[..|arcs| - 1], arcs[|arcs| - 1], before, after)
  }

  ghost predicate MergedThen(arcs: seq<Arc>, a: Arc, before: seq<seq<nat>>, after: seq<seq<nat>>)
    decreases |arcs|, 1
  {
    exists c :: Merged(arcs, before, c) && MergedOnce(a, c, after)
  }

  lemma MergedMore(arcs: seq<Arc>, a: Arc, before: seq<seq<nat>>, c: seq<seq<nat>>, after: seq<seq<nat>>)
    requires Merged(arcs, before, c) && MergedOnce(a, c, after)
    ensures Merged(arcs + [a], before, after)
  {
    assert (arcs + [a])[..|arcs|] == arcs;
  }

  ghost predicate Once(all: multiset<nat>) { forall b :: all[b] <= 1 }

  lemma TwoPlaces(s: seq<nat>, i: nat, j: nat)
    requires i < j < |s| && s[i] == s[j]
    ensures multiset(s)[s[i]] >= 2
  {
    assert s == s[..j] + s[j..];
    assert s[..j][i] == s[i] && s[j..][0] == s[i];
  }

  /** The arc's head is no longer at the end of a chain, so that the arc fits nowhere else. */
  lemma FitsOnce(g: Graph, chains: seq<seq<nat>>, all: multiset<nat>, a: Arc, i: nat, j: nat)
    requires Once(all) && Fits(chains, a, i, j) && Good(g, MovedFront(chains, i, j), all)
    ensures NoneFits(MovedFront(chains, i, j), a)
  {
    var r, k := MovedFront(chains, i, j), |chains[j]| - 1;
    assert r[j] == chains[j] + chains[i][..Front(|chains[i]|)] && r[j][k] == a.head && k + 1 < |r[j]|;
    assert Contents(r) == all && Contents(r)[a.head] <= 1;
    hide Contents, Good, MovedFront;
    forall x: nat, y: nat ensures !Fits(r, a, x, y) {
      if Fits(r, a, x, y) {
        var last := |r[y]| - 1;
        assert r[y][last] == a.head;
        if y == j {
          TwoPlaces(r[j], k, last);
          ContentsAt(r, j, a.head);
        } else {
          assert a.head in r[y] && a.head in r[j];
          ContentsTwice(r, if y < j then y else j, if y < j then j else y, a.head);
        }
      }
    }
  }

  /** The pairs of chains that have been looked at do not fit. */
  ghost predicate Tried(chains: seq<seq<nat>>, a: Arc, i: nat, j: nat) {
    forall x: nat, y: nat :: x < i || (x == i && y < j) ==> !Fits(chains, a, x, y) && !Fits(chains, a, y, x)
  }

  /** For one arc: where a chain ends at its head and another one begins at its tail, the front of the other one moves. */
  method MergeAlong(g: Graph, arc: Arc, chains0: seq<seq<nat>>, ghost all: multiset<nat>) returns (chains: seq<seq<nat>>)
    requires Good(g, chains0, all) && Joins(g, arc) && Once(all)
    ensures Good(g, chains, all) && |chains| == |chains0| && MergedOnce(arc, chains0, chains)
    ensures forall i, j :: 0 <= i < |chains| && 0 <= j < |chains| && i != j && chains[i] != [] && chains[j] != [] ==>
      chains[i][0] != arc.tail || chains[j][|chains[j]| - 1] != arc.head
  {
    hide Good, Once;
    chains := chains0;
    var i := 0;
    while i < |chains|
      invariant 0 <= i <= |chains| == |chains0| && Good(g, chains, all) && Tried(chains, arc, i, 0)
      invariant chains == chains0 || (NoneFits(chains, arc) && MergedOnce(arc, chains0, chains))
    {
      var j := 0;
      while j < |chains|
        invariant 0 <= j <= |chains| == |chains0| && i < |chains| && Good(g, chains, all) && Tried(chains, arc, i, j)
        invariant chains == chains0 || (NoneFits(chains, arc) && MergedOnce(arc, chains0, chains))
      {
        if i != j && |chains[i]| > 0 && |chains[j]| > 0 {
          if chains[i][0] == arc.tail && chains[j][|chains[j]| - 1] == arc.head {
            assert Fits(chains, arc, i, j) && chains == chains0;
            Moved(g, chains, all, i, j, Front(|chains[i]|));
            FitsOnce(g, chains, all, arc, i, j);
            var longer, rest := AppendFront(chains[j], chains[i]);
            chains := chains[j := longer][i := rest];
            assert chains == MovedFront(chains0, i, j);
          } else if chains[i][|chains[i]| - 1] == arc.head && chains[j][0] == arc.tail {
            assert Fits(chains, arc, j, i) && chains == chains0;
            Moved(g, chains, all, j, i, Front(|chains[j]|));
            FitsOnce(g, chains, all, arc, j, i);
            var longer, rest := AppendFront(chains[i], chains[j]);
            chains := chains[i := longer][j := rest];
            assert chains == MovedFront(chains0, j, i);
          }
        }
        j := j + 1;
      }
      i := i + 1;
    }
    NoneIsLeft(chains, arc);
  }

  lemma NoneIsLeft(chains: seq<seq<nat>>, a: Arc)
    requires NoneFits(chains, a) || Tried(chains, a, |chains|, 0)
    ensures forall i, j :: 0 <= i < |chains| && 0 <= j < |chains| && i != j && chains[i] != [] && chains[j] != [] ==>
      chains[i][0] != a.tail || chains[j][|chains[j]| - 1] != a.head
  {
    forall i, j | 0 <= i < |chains| && 0 <= j < |chains| && i != j && chains[i] != [] && chains[j] != []
      ensures chains[i][0] != a.tail || chains[j][|chains[j]| - 1] != a.head
    {
      assert !Fits(chains, a, i, j);
    }
  }

  function Singletons(n: nat): (chains: seq<seq<nat>>)
    ensures |chains| == n && forall i :: 0 <= i < n ==> chains[i] == [i]
  {
    seq(n, i requires 0 <= i < n => [i])
  }

  lemma SingletonsGood(g: Graph, n: nat)
    ensures Good(g, Singletons(n), Contents(Singletons(n)))
  {
  }

  /** Merges the blocks' own chains along all arcs, in the order of the list. No arc leads to the entry. */
  method Merge(g: Graph, arcs: seq<Arc>) returns (chains: seq<seq<nat>>)
    requires Valid(g) && OnlyArcs(g, arcs) && forall b: nat :: 0 !in g.succs(b)
    ensures |chains| == g.blocks && Good(g, chains, Contents(Singletons(g.blocks)))
    ensures Merged(arcs, Singletons(g.blocks), chains)
  {
    chains := Singletons(g.blocks);
    SingletonsGood(g, g.blocks);
    hide Good, MergedOnce;
    var k := 0;
    while k < |arcs|
      invariant 0 <= k <= |arcs| && |chains| == g.blocks && Good(g, chains, Contents(Singletons(g.blocks)))
      invariant Merged(arcs[..k], Singletons(g.blocks), chains)
    {
      assert arcs[k] in arcs;
      forall b ensures Contents(Singletons(g.blocks))[b] <= 1 { SingletonsOnce(g.blocks, b); }
      var next := MergeAlong(g, arcs[k], chains, Contents(Singletons(g.blocks)));
      MergedMore(arcs[..k], arcs[k], Singletons(g.blocks), chains, next);
      assert arcs[..k + 1] == arcs[..k] + [arcs[k]];
      chains := next;
      k := k + 1;
    }
    assert arcs[..k] == arcs;
  }

  // ----- every block in one place -----

  lemma {:induction false} ContentsAt(chains: seq<seq<nat>>, i: nat, b: nat)
    requires i < |chains|
    ensures Contents(chains)[b] >= multiset(chains[i])[b]
    decreases |chains|
  {
    if i < |chains| - 1 { ContentsAt(chains[..|chains| - 1], i, b); }
  }

  lemma {:induction false} ContentsTwice(chains: seq<seq<nat>>, i: nat, j: nat, b: nat)
    requires i < j < |chains|
    ensures Contents(chains)[b] >= multiset(chains[i])[b] + multiset(chains[j])[b]
    decreases |chains|
  {
    var n := |chains| - 1;
    if j < n { ContentsTwice(chains[..n], i, j, b); } else { ContentsAt(chains[..n], i, b); }
  }

  lemma {:induction false} ContentsSome(chains: seq<seq<nat>>, b: nat) returns (i: nat)
    requires Contents(chains)[b] > 0
    ensures i < |chains| && b in chains[i]
    decreases |chains|
  {
    var n := |chains| - 1;
    if b in chains[n] { i := n; } else { i := ContentsSome(chains[..n], b); }
  }

  lemma SingletonsSnoc(n: nat)
    requires n > 0
    ensures Contents(Singletons(n)) == Contents(Singletons(n - 1)) + multiset([n - 1])
  {
    assert Singletons(n)[..n - 1] == Singletons(n - 1);
  }

  lemma {:induction false} SingletonsOnce(n: nat, b: nat)
    ensures Contents(Singletons(n))[b] == if b < n then 1 else 0
  {
    if n > 0 {
      SingletonsOnce(n - 1, b);
      SingletonsSnoc(n);
      hide Contents, Singletons;
      assert Contents(Singletons(n))[b] == Contents(Singletons(n - 1))[b] + multiset([n - 1])[b];
    }
  }

  /** Merging leaves each block in exactly one chain, at one place of it, and the entry at the head of its chain. */
  lemma InOneChain(g: Graph, chains: seq<seq<nat>>, n: nat, b: nat) returns (i: nat)
    requires Good(g, chains, Contents(Singletons(n))) && b < n
    ensures i < |chains| && b in chains[i] && (forall j :: 0 <= j < |chains| && b in chains[j] ==> j == i)
    ensures multiset(chains[i])[b] == 1 && (b == 0 ==> chains[i][0] == 0)
  {
    SingletonsOnce(n, b);
    i := ContentsSome(chains, b);
    ContentsAt(chains, i, b);
    forall j | 0 <= j < |chains| && b in chains[j] ensures j == i {
      if j < i { ContentsTwice(chains, j, i, b); } else if i < j { ContentsTwice(chains, i, j, b); }
    }
    var k :| 0 <= k < |chains[i]| && chains[i][k] == b;
    assert EntryFirst(chains[i]);
  }
}
