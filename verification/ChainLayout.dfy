/** The layout of a function: all chains are moved, one behind the other, behind the last block of the entry's chain. */
module ChainLayout {
  import opened ArcCollection
  import opened ChainMerging

  // ----- lists of blocks -----

  function Without(l: seq<nat>, s: set<nat>): seq<nat> {
    if l == [] then [] else
    var b := l[|l| - 1];
    Without(l[..|l| - 1], s) + if b in s then [] else [b]
  }

  /** Each occurrence of `at` followed by `more`. */
  function Around(l: seq<nat>, at: nat, more: seq<nat>): seq<nat> {
    if l == [] then [] else
    var b := l[|l| - 1];
    Around(l[..|l| - 1], at, more) + [b] + if b == at then more else []
  }

  /** Moves a block behind another one. */
  function MoveAfter(l: seq<nat>, b: nat, at: nat): seq<nat> { Around(Without(l, {b}), at, [b]) }

  lemma {:induction false} WithoutAdds(l: seq<nat>, m: seq<nat>, s: set<nat>)
    ensures Without(l + m, s) == Without(l, s) + Without(m, s)
  {
    if m == [] {
      assert l + m == l;
    } else {
      var n := |m| - 1;
      WithoutAdds(l, m[..n], s);
      assert (l + m)[..|l + m| - 1] == l + m[..n];
    }
  }

  lemma {:induction false} WithoutNone(l: seq<nat>, s: set<nat>)
    requires forall b | b in l :: b !in s
    ensures Without(l, s) == l
  {
    if l != [] {
      assert forall b | b in l[..|l| - 1] :: b in l;
      WithoutNone(l[..|l| - 1], s);
    }
  }

  lemma {:induction false} WithoutTwice(l: seq<nat>, s: set<nat>, r: set<nat>)
    ensures Without(Without(l, s), r) == Without(l, s + r)
  {
    if l != [] {
      var n := |l| - 1;
      WithoutTwice(l[..n], s, r);
      WithoutAdds(Without(l[..n], s), if l[n] in s then [] else [l[n]], r);
      if l[n] !in s { WithoutOne(l[n], r); }
    }
  }

  lemma WithoutOne(b: nat, s: set<nat>)
    ensures Without([b], s) == if b in s then [] else [b]
  {
    assert [b][..0] == [];
  }

  lemma {:induction false} AroundAdds(l: seq<nat>, m: seq<nat>, at: nat, more: seq<nat>)
    ensures Around(l + m, at, more) == Around(l, at, more) + Around(m, at, more)
  {
    if m == [] {
      assert l + m == l;
    } else {
      var n := |m| - 1;
      AroundAdds(l, m[..n], at, more);
      assert (l + m)[..|l + m| - 1] == l + m[..n];
    }
  }

  lemma {:induction false} AroundAbsent(l: seq<nat>, at: nat, more: seq<nat>)
    requires at !in l
    ensures Around(l, at, more) == l
  {
    if l != [] { AroundAbsent(l[..|l| - 1], at, more); }
  }

  lemma AroundOne(b: nat, at: nat, more: seq<nat>)
    ensures Around([b], at, more) == [b] + if b == at then more else []
  {
    assert [b][..0] == [];
  }

  /** Taking out a block that is neither `at` nor in `more`. */
  lemma {:induction false} WithoutAround(l: seq<nat>, at: nat, more: seq<nat>, b: nat)
    requires b != at && b !in more
    ensures Without(Around(l, at, more), {b}) == Around(Without(l, {b}), at, more)
  {
    if l != [] {
      var n := |l| - 1;
      var e := l[n];
      WithoutAround(l[..n], at, more, b);
      WithoutAdds(Around(l[..n], at, more) + [e], if e == at then more else [], {b});
      WithoutAdds(Around(l[..n], at, more), [e], {b});
      WithoutOne(e, {b});
      WithoutNone(more, {b});
      AroundAdds(Without(l[..n], {b}), if e in {b} then [] else [e], at, more);
      if e != b { AroundOne(e, at, more); }
    }
  }

  /** Putting a block behind the last one that was put there. */
  lemma {:induction false} AroundGrows(l: seq<nat>, at: nat, more: seq<nat>, b: nat)
    requires more != [] && more[|more| - 1] !in l && more[|more| - 1] !in more[..|more| - 1] && more[|more| - 1] != at
    ensures Around(Around(l, at, more), more[|more| - 1], [b]) == Around(l, at, more + [b])
  {
    if l == [] {
    } else {
      hide Around;
      var front, e := l[..|l| - 1], l[|l| - 1];
      LastApart(l);
      AroundGrows(front, at, more, b);
      AroundStep(Around(front, at, more), e, at, more, b);
      AroundAdds(front, [e], at, more);
      AroundAdds(front, [e], at, more + [b]);
      AroundOne(e, at, more);
      AroundOne(e, at, more + [b]);
    }
  }

  lemma LastApart(l: seq<nat>)
    requires l != []
    ensures l == l[..|l| - 1] + [l[|l| - 1]] && forall b | b in l[..|l| - 1] :: b in l
  {
  }

  lemma AroundStep(x: seq<nat>, e: nat, at: nat, more: seq<nat>, b: nat)
    requires more != [] && more[|more| - 1] != e && more[|more| - 1] !in more[..|more| - 1]
    ensures var last := more[|more| - 1];
      Around(x + ([e] + if e == at then more else []), last, [b])
        == Around(x, last, [b]) + ([e] + if e == at then more + [b] else [])
  {
    hide Around;
    var last := more[|more| - 1];
    AroundOne(e, last, [b]);
    AroundBehind(more, b);
    AroundNothingIn(last, [b]);
    AroundAdds(x, [e] + if e == at then more else [], last, [b]);
    AroundAdds([e], if e == at then more else [], last, [b]);
  }

  lemma AroundNothingIn(at: nat, more: seq<nat>)
    ensures Around([], at, more) == []
  {
  }

  lemma AroundBehind(more: seq<nat>, b: nat)
    requires more != [] && more[|more| - 1] !in more[..|more| - 1]
    ensures Around(more, more[|more| - 1], [b]) == more + [b]
  {
    hide Around;
    var front, last := more[..|more| - 1], more[|more| - 1];
    LastApart(more);
    AroundAdds(front, [last], last, [b]);
    AroundAbsent(front, last, [b]);
    AroundOne(last, last, [b]);
    Reassociated(front, last, b);
  }

  lemma Reassociated(front: seq<nat>, last: nat, b: nat)
    ensures front + ([last] + [b]) == (front + [last]) + [b]
  {
  }

  lemma {:induction false} AroundNothing(l: seq<nat>, at: nat)
    ensures Around(l, at, []) == l
  {
    if l != [] { AroundNothing(l[..|l| - 1], at); }
  }

  lemma {:induction false} WithoutHolds(l: seq<nat>, s: set<nat>)
    ensures forall b :: b in Without(l, s) <==> b in l && b !in s
  {
    if l != [] {
      var n := |l| - 1;
      WithoutHolds(l[..n], s);
      assert l == l[..n] + [l[n]];
    }
  }

  function Elements(l: seq<nat>): set<nat> { set b | b in l }

  predicate Distinct(l: seq<nat>) { forall i, j :: 0 <= i < j < |l| ==> l[i] != l[j] }

  /** The layout once some blocks are moved behind block `t`, one behind the other. */
  ghost predicate Placing(layout0: seq<nat>, layout: seq<nat>, t: nat, placed: seq<nat>) {
    Distinct(placed) && t !in placed && layout == Around(Without(layout0, Elements(placed)), t, placed)
  }

  function Last(t: nat, placed: seq<nat>): nat { if placed == [] then t else placed[|placed| - 1] }

  lemma PlaceOne(layout0: seq<nat>, layout: seq<nat>, t: nat, placed: seq<nat>, b: nat)
    requires Placing(layout0, layout, t, placed) && b !in placed && b != t
    ensures Placing(layout0, MoveAfter(layout, b, Last(t, placed)), t, placed + [b])
  {
    hide Around, Without;
    var s := Elements(placed);
    var rest := Without(layout0, s + {b});
    WithoutAround(Without(layout0, s), t, placed, b);
    WithoutTwice(layout0, s, {b});
    assert Elements(placed + [b]) == s + {b};
    if placed == [] {
      AroundNothing(rest, t);
      assert [] + [b] == [b];
    } else {
      WithoutHolds(layout0, s + {b});
      LastOnce(placed);
      AroundGrows(rest, t, placed, b);
    }
  }

  lemma LastOnce(placed: seq<nat>)
    requires Distinct(placed) && placed != []
    ensures placed[|placed| - 1] in placed && placed[|placed| - 1] !in placed[..|placed| - 1]
  {
  }

  /** Moves the blocks of a chain, in order, behind the one placed last. */
  method AppendChain(layout0: seq<nat>, c: seq<nat>, curr0: nat, ghost start: seq<nat>, ghost t: nat, ghost placed: seq<nat>)
    returns (layout: seq<nat>, curr: nat)
    requires Placing(start, layout0, t, placed) && curr0 == Last(t, placed)
    requires Distinct(c) && t !in c && forall b | b in c :: b !in placed
    ensures Placing(start, layout, t, placed + c) && curr == Last(t, placed + c)
  {
    hide Placing, MoveAfter;
    layout, curr := layout0, curr0;
    var j := 0;
    assert placed + c[..0] == placed;
    while j < |c|
      invariant 0 <= j <= |c| && Placing(start, layout, t, placed + c[..j]) && curr == Last(t, placed + c[..j])
    {
      assert placed + c[..j + 1] == (placed + c[..j]) + [c[j]];
      PlaceOne(start, layout, t, placed + c[..j], c[j]);
      layout := MoveAfter(layout, c[j], curr);
      curr := c[j];
      j := j + 1;
    }
    assert c[..j] == c;
  }

  // ----- choosing chains -----

  /** Some block of each chain has a successor in common. */
  ghost predicate Connected(g: Graph, a: seq<nat>, b: seq<nat>) {
    exists i, j, s :: 0 <= i < |a| && 0 <= j < |b| && s in g.succs(a[i]) && s in g.succs(b[j])
  }

  method CountCommon(xs: seq<nat>, ys: seq<nat>) returns (n: nat)
    ensures n > 0 <==> exists s :: s in xs && s in ys
  {
    n := 0;
    var i := 0;
    while i < |xs|
      invariant 0 <= i <= |xs| && (n > 0 <==> exists s :: s in xs[..i] && s in ys)
    {
      ghost var before := n;
      var j := 0;
      while j < |ys|
        invariant 0 <= j <= |ys| && n >= before && (n > before <==> xs[i] in ys[..j])
      {
        if xs[i] == ys[j] { n := n + 1; }
        j := j + 1;
      }
      assert ys[..j] == ys && xs[..i + 1] == xs[..i] + [xs[i]];
      i := i + 1;
    }
    assert xs[..i] == xs;
  }

  method CountConnections(g: Graph, a: seq<nat>, b: seq<nat>) returns (n: nat)
    ensures n > 0 <==> Connected(g, a, b)
  {
    n := 0;
    var i := 0;
    while i < |a|
      invariant 0 <= i <= |a|
      invariant n > 0 <==> exists k, l, s :: 0 <= k < i && 0 <= l < |b| && s in g.succs(a[k]) && s in g.succs(b[l])
    {
      ghost var before := n;
      var j := 0;
      while j < |b|
        invariant 0 <= j <= |b| && n >= before
        invariant n > before <==> exists l, s :: 0 <= l < j && s in g.succs(a[i]) && s in g.succs(b[l])
      {
        var common := CountCommon(g.succs(a[i]), g.succs(b[j]));
        n := n + common;
        j := j + 1;
      }
      i := i + 1;
    }
  }

  predicate Candidate(chains: seq<seq<nat>>, visited: set<nat>, i: nat, j: nat) {
    j < |chains| && j != i && chains[j] != [] && j !in visited
  }

  /** Chain `r` is the last candidate that is connected with the current chain, or the first one of all if none is. */
  ghost predicate Chosen(g: Graph, chains: seq<seq<nat>>, visited: set<nat>, chainIndex: nat, i: nat, r: nat) {
    && chainIndex < |chains| && Candidate(chains, visited, i, r)
    && if Connected(g, chains[chainIndex], chains[r])
       then forall j: nat :: j > r && Candidate(chains, visited, i, j) ==> !Connected(g, chains[chainIndex], chains[j])
       else forall j: nat :: Candidate(chains, visited, i, j) ==> j >= r && !Connected(g, chains[chainIndex], chains[j])
  }

  ghost predicate NoCandidate(chains: seq<seq<nat>>, visited: set<nat>, i: nat) { forall j: nat :: !Candidate(chains, visited, i, j) }

  /** The chain to place, or -1 if there is no candidate. */
  method Choose(g: Graph, chains: seq<seq<nat>>, visited: set<nat>, chainIndex: nat, i: nat) returns (r: int)
    requires chainIndex < |chains|
    ensures if r == -1 then NoCandidate(chains, visited, i) else r >= 0 && Chosen(g, chains, visited, chainIndex, i, r)
  {
    hide Connected;
    r := -1;
    var maxConnections, j := 0, 0;
    while j < |chains|
      invariant 0 <= j <= |chains| && maxConnections == 0
      invariant r == -1 || (0 <= r < j && Candidate(chains, visited, i, r))
      invariant r == -1 <==> forall k: nat :: k < j ==> !Candidate(chains, visited, i, k)
      invariant r != -1 && Connected(g, chains[chainIndex], chains[r]) ==>
        forall k: nat :: r < k < j && Candidate(chains, visited, i, k) ==> !Connected(g, chains[chainIndex], chains[k])
      invariant r != -1 && !Connected(g, chains[chainIndex], chains[r]) ==>
        forall k: nat :: k < j && Candidate(chains, visited, i, k) ==> k >= r && !Connected(g, chains[chainIndex], chains[k])
    {
      if i != j && |chains[j]| > 0 && j !in visited {
        if r == -1 { r := j; }
        var connections := CountConnections(g, chains[chainIndex], chains[j]);
        if connections > maxConnections { r := j; }
      }
      j := j + 1;
    }
  }

  // ----- placing all chains -----

  /** No block is in two places. */
  ghost predicate Parted(chains: seq<seq<nat>>) {
    && (forall i :: 0 <= i < |chains| ==> Distinct(chains[i]))
    && forall i, j, b :: 0 <= i < |chains| && 0 <= j < |chains| && b in chains[i] && b in chains[j] ==> i == j
  }

  function Concat(chains: seq<seq<nat>>, order: seq<nat>): seq<nat>
    requires forall k :: 0 <= k < |order| ==> order[k] < |chains|
  {
    if order == [] then [] else Concat(chains, order[..|order| - 1]) + chains[order[|order| - 1]]
  }

  lemma {:induction false} ConcatFrom(chains: seq<seq<nat>>, order: seq<nat>, b: nat)
    requires forall k :: 0 <= k < |order| ==> order[k] < |chains|
    ensures b in Concat(chains, order) <==> exists k :: 0 <= k < |order| && b in chains[order[k]]
  {
    if order != [] {
      var n := |order| - 1;
      ConcatFrom(chains, order[..n], b);
      if k :| 0 <= k < n && b in chains[order[..n][k]] { assert b in chains[order[k]]; }
      if k :| 0 <= k < |order| && b in chains[order[k]] {
        if k < n { assert b in chains[order[..n][k]]; }
      }
    }
  }

  /** The chains from index `from` on that hold blocks. */
  function NonEmpty(chains: seq<seq<nat>>, from: nat): (s: set<nat>)
    requires from <= |chains|
    ensures forall i :: i in s <==> from <= i < |chains| && chains[i] != []
    decreases |chains| - from
  {
    if from == |chains| then {} else NonEmpty(chains, from + 1) + if chains[from] != [] then {from} else {}
  }

  /** Enough chains are still to come for those that are not placed. */
  ghost predicate Enough(chains: seq<seq<nat>>, unplaced: set<nat>, i: nat)
    requires i <= |chains|
  {
    || |unplaced| < |NonEmpty(chains, i)|
    || unplaced == {}
    || (|unplaced| == 1 && NonEmpty(chains, i) != {} && forall u | u in unplaced :: u < i)
  }

  lemma NonEmptyNext(chains: seq<seq<nat>>, i: nat)
    requires i < |chains|
    ensures |NonEmpty(chains, i)| == |NonEmpty(chains, i + 1)| + if chains[i] != [] then 1 else 0
  {
    assert i !in NonEmpty(chains, i + 1);
  }

  /** A chain is placed. */
  lemma EnoughPlaced(chains: seq<seq<nat>>, unplaced: set<nat>, i: nat, x: nat)
    requires i < |chains| && chains[i] != [] && Enough(chains, unplaced, i) && x in unplaced
    ensures Enough(chains, unplaced - {x}, i + 1)
  {
    NonEmptyNext(chains, i);
    assert |unplaced - {x}| == |unplaced| - 1;
    if |unplaced| == 1 { assert unplaced - {x} == {}; }
  }

  /** None is left but the chain itself. */
  lemma EnoughSkipped(chains: seq<seq<nat>>, unplaced: set<nat>, i: nat)
    requires i < |chains| && Enough(chains, unplaced, i) && (chains[i] != [] ==> unplaced <= {i})
    ensures Enough(chains, unplaced, i + 1)
  {
    NonEmptyNext(chains, i);
    if chains[i] != [] {
      if unplaced != {} { assert unplaced == {i}; }
    } else {
      assert NonEmpty(chains, i) == NonEmpty(chains, i + 1);
    }
  }

  /** The order in which chains are placed, and what is left. */
  ghost predicate Ordered(chains: seq<seq<nat>>, entry: nat, order: seq<nat>, visited: set<nat>) {
    && entry < |chains| && Distinct(order) && visited == {entry} + Elements(order)
    && forall k :: 0 <= k < |order| ==> order[k] < |chains| && order[k] != entry && chains[order[k]] != []
  }

  lemma ChainFits(chains: seq<seq<nat>>, entry: nat, order: seq<nat>, visited: set<nat>, x: nat)
    requires Parted(chains) && Ordered(chains, entry, order, visited) && x < |chains| && x !in visited && chains[x] != []
    requires chains[entry] != []
    ensures Distinct(chains[x]) && chains[entry][|chains[entry]| - 1] !in chains[x]
    ensures forall b | b in chains[x] :: b !in Concat(chains, order)
    ensures Ordered(chains, entry, order + [x], visited + {x})
    ensures Concat(chains, order + [x]) == Concat(chains, order) + chains[x]
  {
    assert chains[entry][|chains[entry]| - 1] in chains[entry];
    assert forall k :: 0 <= k < |order| ==> order[k] in Elements(order);
    forall b | b in chains[x] ensures b !in Concat(chains, order) {
      ConcatFrom(chains, order, b);
    }
    assert Elements(order + [x]) == Elements(order) + {x};
    assert (order + [x])[..|order|] == order;
  }

  /** The chain placed last. */
  function Current(entry: nat, order: seq<nat>): nat { if order == [] then entry else order[|order| - 1] }

  /** The chains that the first `i` rounds place, in order: each round that finds a chain of its own index places the chosen one. */
  ghost predicate Rounds(g: Graph, chains: seq<seq<nat>>, entry: nat, order: seq<nat>, i: nat)
    requires i <= |chains|
  {
    if i == 0 then order == [] else
    var visited := {entry} + Elements(order);
    || (Rounds(g, chains, entry, order, i - 1) && (chains[i - 1] == [] || NoCandidate(chains, visited, i - 1)))
    || (order != [] && chains[i - 1] != []
        && (var before, x := order[..|order| - 1], order[|order| - 1];
            && Rounds(g, chains, entry, before, i - 1)
            && Chosen(g, chains, {entry} + Elements(before), Current(entry, before), i - 1, x)))
  }

  lemma RoundsStart(g: Graph, chains: seq<seq<nat>>, entry: nat)
    ensures Rounds(g, chains, entry, [], 0) && Current(entry, []) == entry
  {
  }

  lemma RoundPlaces(g: Graph, chains: seq<seq<nat>>, entry: nat, order: seq<nat>, i: nat, x: nat)
    requires i < |chains| && chains[i] != [] && Rounds(g, chains, entry, order, i)
    requires Chosen(g, chains, {entry} + Elements(order), Current(entry, order), i, x)
    ensures Rounds(g, chains, entry, order + [x], i + 1) && Current(entry, order + [x]) == x
  {
    assert (order + [x])[..|order|] == order;
  }

  /** What each round keeps. */
  ghost predicate Placed(chains: seq<seq<nat>>, entry: nat, start: seq<nat>, layout: seq<nat>, order: seq<nat>, visited: set<nat>,
      curr: nat, i: nat)
  {
    && i <= |chains| && Ordered(chains, entry, order, visited) && chains[entry] != []
    && (var t := chains[entry][|chains[entry]| - 1];
        Placing(start, layout, t, Concat(chains, order)) && curr == Last(t, Concat(chains, order)))
    && Enough(chains, NonEmpty(chains, 0) - visited, i)
  }

  lemma PlaceStarts(chains: seq<seq<nat>>, entry: nat, layout: seq<nat>)
    requires entry < |chains| && chains[entry] != []
    ensures Placed(chains, entry, layout, layout, [], {entry}, chains[entry][|chains[entry]| - 1], 0)
  {
    WithoutNone(layout, {});
    AroundNothing(layout, chains[entry][|chains[entry]| - 1]);
    assert Elements([]) == {};
    assert |NonEmpty(chains, 0) - {entry}| == |NonEmpty(chains, 0)| - 1;
  }

  lemma PlacedChain(chains: seq<seq<nat>>, entry: nat, start: seq<nat>, layout: seq<nat>, order: seq<nat>, visited: set<nat>,
      curr: nat, i: nat, x: nat, layout1: seq<nat>, curr1: nat)
    requires Parted(chains) && Placed(chains, entry, start, layout, order, visited, curr, i)
    requires Candidate(chains, visited, i, x) && i < |chains| && chains[i] != []
    requires var t := chains[entry][|chains[entry]| - 1];
      Placing(start, layout1, t, Concat(chains, order) + chains[x]) && curr1 == Last(t, Concat(chains, order) + chains[x])
    ensures Placed(chains, entry, start, layout1, order + [x], visited + {x}, curr1, i + 1)
  {
    hide Placing, Concat, Parted, Ordered, Enough;
    ChainFits(chains, entry, order, visited, x);
    EnoughPlaced(chains, NonEmpty(chains, 0) - visited, i, x);
    assert NonEmpty(chains, 0) - (visited + {x}) == NonEmpty(chains, 0) - visited - {x};
  }

  lemma PlacedNone(chains: seq<seq<nat>>, entry: nat, start: seq<nat>, layout: seq<nat>, order: seq<nat>, visited: set<nat>,
      curr: nat, i: nat)
    requires Placed(chains, entry, start, layout, order, visited, curr, i) && i < |chains|
    requires chains[i] == [] || NoCandidate(chains, visited, i)
    ensures Placed(chains, entry, start, layout, order, visited, curr, i + 1)
  {
    hide Placing, Concat, Ordered, Enough;
    if chains[i] != [] {
      forall u | u in NonEmpty(chains, 0) - visited ensures u == i { assert !Candidate(chains, visited, i, u); }
    }
    EnoughSkipped(chains, NonEmpty(chains, 0) - visited, i);
  }

  /** One round: appends the chosen chain, if there is a candidate. */
  method PlaceNext(g: Graph, chains: seq<seq<nat>>, i: nat, chainIndex0: nat, visited0: set<nat>, layout0: seq<nat>, curr0: nat,
      ghost entry: nat, ghost start: seq<nat>, ghost order0: seq<nat>)
    returns (chainIndex: nat, visited: set<nat>, layout: seq<nat>, curr: nat, ghost order: seq<nat>)
    requires Parted(chains) && i < |chains| && chainIndex0 < |chains|
    requires Placed(chains, entry, start, layout0, order0, visited0, curr0, i)
    requires Rounds(g, chains, entry, order0, i) && chainIndex0 == Current(entry, order0)
    ensures chainIndex < |chains| && Placed(chains, entry, start, layout, order, visited, curr, i + 1)
    ensures Rounds(g, chains, entry, order, i + 1) && chainIndex == Current(entry, order)
  {
    chainIndex, visited, layout, curr, order := chainIndex0, visited0, layout0, curr0, order0;
    if |chains[i]| > 0 {
      var newChainIndex := Choose(g, chains, visited, chainIndex, i);
      if newChainIndex != -1 {
        var x: nat := newChainIndex;
        ghost var t, placed := chains[entry][|chains[entry]| - 1], Concat(chains, order);
        ChainFits(chains, entry, order, visited, x);
        RoundPlaces(g, chains, entry, order, i, x);
        hide Rounds, Chosen, Placing, Concat, Parted, Ordered, Enough, Connected;
        layout, curr := AppendChain(layout, chains[x], curr, start, t, placed);
        PlacedChain(chains, entry, start, layout0, order0, visited0, curr0, i, x, layout, curr);
        chainIndex, visited, order := x, visited + {x}, order + [x];
        return;
      }
    }
    PlacedNone(chains, entry, start, layout0, order0, visited0, curr0, i);
  }

  /** The chain that begins with the entry. */
  method FindEntry(chains: seq<seq<nat>>) returns (chainIndex: nat)
    requires exists i :: 0 <= i < |chains| && chains[i] != [] && chains[i][0] == 0
    ensures chainIndex < |chains| && chains[chainIndex] != [] && chains[chainIndex][0] == 0
  {
    chainIndex := 0;
    while !(|chains[chainIndex]| > 0 && chains[chainIndex][0] == 0)
      invariant 0 <= chainIndex < |chains|
      invariant exists i :: chainIndex <= i < |chains| && chains[i] != [] && chains[i][0] == 0
      decreases |chains| - chainIndex
    {
      chainIndex := chainIndex + 1;
    }
  }

  /** Places each chain but the entry's own exactly once. */
  method Place(g: Graph, chains: seq<seq<nat>>, layout0: seq<nat>)
    returns (layout: seq<nat>, ghost entry: nat, ghost order: seq<nat>)
    requires Parted(chains) && exists i :: 0 <= i < |chains| && chains[i] != [] && chains[i][0] == 0
    ensures entry < |chains| && chains[entry] != [] && chains[entry][0] == 0
    ensures Distinct(order) && Elements(order) == NonEmpty(chains, 0) - {entry}
    ensures forall k :: 0 <= k < |order| ==> order[k] < |chains|
    ensures Placing(layout0, layout, chains[entry][|chains[entry]| - 1], Concat(chains, order))
    ensures Rounds(g, chains, entry, order, |chains|)
  {
    hide Placed, Rounds;
    var chainIndex: nat := FindEntry(chains);
    entry, order, layout := chainIndex, [], layout0;
    var curr: nat := chains[chainIndex][|chains[chainIndex]| - 1];
    var visitedChains: set<nat> := {chainIndex};
    PlaceStarts(chains, entry, layout0);
    RoundsStart(g, chains, entry);
    var i := 0;
    while i < |chains|
      invariant 0 <= i <= |chains| && chainIndex < |chains|
      invariant Placed(chains, entry, layout0, layout, order, visitedChains, curr, i)
      invariant Rounds(g, chains, entry, order, i) && chainIndex == Current(entry, order)
    {
      chainIndex, visitedChains, layout, curr, order :=
        PlaceNext(g, chains, i, chainIndex, visitedChains, layout, curr, entry, layout0, order);
      i := i + 1;
    }
    AllPlaced(chains, entry, layout0, layout, order, visitedChains, curr);
  }

  lemma AllPlaced(chains: seq<seq<nat>>, entry: nat, start: seq<nat>, layout: seq<nat>, order: seq<nat>, visited: set<nat>, curr: nat)
    requires Placed(chains, entry, start, layout, order, visited, curr, |chains|)
    ensures Distinct(order) && Elements(order) == NonEmpty(chains, 0) - {entry}
    ensures forall k :: 0 <= k < |order| ==> order[k] < |chains|
    ensures Placing(start, layout, chains[entry][|chains[entry]| - 1], Concat(chains, order))
  {
    assert NonEmpty(chains, |chains|) == {};
    assert NonEmpty(chains, 0) - visited == {};
    forall x | x in Elements(order) ensures x in NonEmpty(chains, 0) - {entry} {
      var k :| 0 <= k < |order| && order[k] == x;
    }
  }

  // ----- what the layout is -----

  lemma {:induction false} WithoutDistinct(l: seq<nat>, s: set<nat>)
    requires Distinct(l)
    ensures Distinct(Without(l, s))
  {
    if l != [] {
      WithoutDistinct(l[..|l| - 1], s);
      WithoutHolds(l[..|l| - 1], s);
    }
  }

  /** The blocks that stay keep their order, and all others are one stretch behind block `t`. */
  lemma OneStretch(start: seq<nat>, layout: seq<nat>, t: nat, placed: seq<nat>) returns (before: seq<nat>, behind: seq<nat>)
    requires Placing(start, layout, t, placed) && Distinct(start) && t in start
    ensures layout == before + [t] + placed + behind && before + [t] + behind == Without(start, Elements(placed))
  {
    var rest := Without(start, Elements(placed));
    WithoutHolds(start, Elements(placed));
    WithoutDistinct(start, Elements(placed));
    var k :| 0 <= k < |rest| && rest[k] == t;
    before, behind := rest[..k], rest[k + 1..];
    assert rest == before + [t] + behind;
    assert t !in before && t !in behind;
    hide Around, Without, Distinct, Elements;
    AroundAdds(before + [t], behind, t, placed);
    AroundAdds(before, [t], t, placed);
    AroundAbsent(before, t, placed);
    AroundAbsent(behind, t, placed);
    AroundOne(t, t, placed);
  }

  lemma {:induction false} WithoutFirst(l: seq<nat>, s: set<nat>)
    requires l != [] && l[0] !in s
    ensures Without(l, s) != [] && Without(l, s)[0] == l[0]
  {
    if |l| > 1 { WithoutFirst(l[..|l| - 1], s); } else { assert l == [l[0]]; WithoutOne(l[0], s); }
  }

  /** The entry stays first. */
  lemma EntryStaysFirst(start: seq<nat>, layout: seq<nat>, t: nat, placed: seq<nat>)
    requires Placing(start, layout, t, placed) && Distinct(start) && t in start && start[0] !in placed
    ensures layout != [] && layout[0] == start[0]
  {
    var before, behind := OneStretch(start, layout, t, placed);
    WithoutFirst(start, Elements(placed));
    assert layout[0] == (before + [t] + behind)[0];
  }

  lemma {:induction false} WithoutBag(l: seq<nat>, s: set<nat>, b: nat)
    ensures multiset(Without(l, s))[b] == if b in s then 0 else multiset(l)[b]
  {
    if l != [] {
      WithoutBag(l[..|l| - 1], s, b);
      assert l == l[..|l| - 1] + [l[|l| - 1]];
    }
  }

  /** The layout is a permutation: no block is lost or doubled. */
  lemma SameBlocks(start: seq<nat>, layout: seq<nat>, t: nat, placed: seq<nat>)
    requires Placing(start, layout, t, placed) && Distinct(start) && t in start && forall b | b in placed :: b in start
    ensures multiset(layout) == multiset(start)
  {
    var before, behind := OneStretch(start, layout, t, placed);
    forall b ensures multiset(layout)[b] == multiset(start)[b] {
      WithoutBag(start, Elements(placed), b);
      DistinctBag(placed, b);
      DistinctBag(start, b);
      assert multiset(layout)[b] == multiset(before + [t] + behind)[b] + multiset(placed)[b];
    }
  }

  lemma {:induction false} DistinctBag(l: seq<nat>, b: nat)
    requires Distinct(l)
    ensures multiset(l)[b] == if b in l then 1 else 0
  {
    if l != [] {
      DistinctBag(l[..|l| - 1], b);
      assert l == l[..|l| - 1] + [l[|l| - 1]];
    }
  }

  // ----- the pass -----

  lemma OnceDistinct(l: seq<nat>)
    requires forall b | b in l :: multiset(l)[b] == 1
    ensures Distinct(l)
  {
    forall i, j | 0 <= i < j < |l| ensures l[i] != l[j] {
      assert l == l[..j] + l[j..] && l[i] in l[..j] && l[j] in l[j..] && l[i] in l;
      assert multiset(l) == multiset(l[..j]) + multiset(l[j..]);
    }
  }

  /** Merged chains have no block in common, and one begins with the entry. */
  lemma MergedParted(g: Graph, chains: seq<seq<nat>>)
    requires g.blocks > 0 && Good(g, chains, Contents(Singletons(g.blocks)))
    ensures Parted(chains) && exists i :: 0 <= i < |chains| && chains[i] != [] && chains[i][0] == 0
    ensures forall i, b | 0 <= i < |chains| && b in chains[i] :: b < g.blocks
  {
    forall i, b | 0 <= i < |chains| && b in chains[i]
      ensures b < g.blocks && multiset(chains[i])[b] == 1 && forall j :: 0 <= j < |chains| && b in chains[j] ==> j == i
    {
      ContentsAt(chains, i, b);
      SingletonsOnce(g.blocks, b);
      var k := InOneChain(g, chains, g.blocks, b);
    }
    forall i | 0 <= i < |chains| ensures Distinct(chains[i]) { OnceDistinct(chains[i]); }
    var e := InOneChain(g, chains, g.blocks, 0);
    assert chains[e] != [] && chains[e][0] == 0;
  }

  /** A chain that is placed is one stretch of the layout. */
  ghost predicate Stretch(l: seq<nat>, c: seq<nat>) { exists a, b :: l == a + c + b }

  lemma {:induction false} ConcatStretch(chains: seq<seq<nat>>, order: seq<nat>, k: nat) returns (a: seq<nat>, b: seq<nat>)
    requires (forall i :: 0 <= i < |order| ==> order[i] < |chains|) && k < |order|
    ensures Concat(chains, order) == a + chains[order[k]] + b
  {
    var n := |order| - 1;
    if k == n {
      a, b := Concat(chains, order[..n]), [];
    } else {
      a, b := ConcatStretch(chains, order[..n], k);
      b := b + chains[order[n]];
    }
  }

  function Identity(n: nat): (l: seq<nat>)
    ensures |l| == n && forall i :: 0 <= i < n ==> l[i] == i
  {
    seq(n, i requires 0 <= i < n => i)
  }

  /** The layout of the whole function. */
  ghost predicate LaidOut(g: Graph, chains: seq<seq<nat>>, layout: seq<nat>) {
    && multiset(layout) == multiset(Identity(g.blocks)) && layout != [] && layout[0] == 0
    && forall i :: 0 <= i < |chains| && chains[i] != [] && chains[i][0] != 0 ==> Stretch(layout, chains[i])
  }

  lemma PlacedIsLaidOut(g: Graph, chains: seq<seq<nat>>, layout: seq<nat>, entry: nat, order: seq<nat>)
    requires g.blocks > 0 && Parted(chains) && entry < |chains| && chains[entry] != [] && chains[entry][0] == 0
    requires forall i, b | 0 <= i < |chains| && b in chains[i] :: b < g.blocks
    requires Distinct(order) && Elements(order) == NonEmpty(chains, 0) - {entry} && forall k :: 0 <= k < |order| ==> order[k] < |chains|
    requires Placing(Identity(g.blocks), layout, chains[entry][|chains[entry]| - 1], Concat(chains, order))
    ensures LaidOut(g, chains, layout)
  {
    var start, t, placed := Identity(g.blocks), chains[entry][|chains[entry]| - 1], Concat(chains, order);
    assert t in chains[entry] && start[t] == t;
    PlacedBlocks(g, chains, entry, order);
    hide Placing, Concat, Without, Parted, Stretch;
    SameBlocks(start, layout, t, placed);
    EntryStaysFirst(start, layout, t, placed);
    var before, behind := OneStretch(start, layout, t, placed);
    forall i | 0 <= i < |chains| && chains[i] != [] && chains[i][0] != 0 ensures Stretch(layout, chains[i]) {
      PlacedStretch(chains, entry, order, i, layout, before + [t], behind);
    }
  }

  lemma PlacedBlocks(g: Graph, chains: seq<seq<nat>>, entry: nat, order: seq<nat>)
    requires Parted(chains) && entry < |chains| && chains[entry] != [] && chains[entry][0] == 0
    requires forall i, b | 0 <= i < |chains| && b in chains[i] :: b < g.blocks
    requires Elements(order) == NonEmpty(chains, 0) - {entry} && forall k :: 0 <= k < |order| ==> order[k] < |chains|
    ensures forall b | b in Concat(chains, order) :: b in Identity(g.blocks) && b != 0
  {
    assert chains[entry][0] in chains[entry];
    forall b | b in Concat(chains, order) ensures b in Identity(g.blocks) && b != 0 {
      ConcatFrom(chains, order, b);
      var k :| 0 <= k < |order| && b in chains[order[k]];
      assert Identity(g.blocks)[b] == b && order[k] in Elements(order);
    }
  }

  lemma PlacedStretch(chains: seq<seq<nat>>, entry: nat, order: seq<nat>, i: nat, layout: seq<nat>, before: seq<nat>, behind: seq<nat>)
    requires entry < |chains| && chains[entry] != [] && chains[entry][0] == 0
    requires Elements(order) == NonEmpty(chains, 0) - {entry} && forall k :: 0 <= k < |order| ==> order[k] < |chains|
    requires i < |chains| && chains[i] != [] && chains[i][0] != 0 && layout == before + Concat(chains, order) + behind
    ensures Stretch(layout, chains[i])
  {
    assert i in Elements(order);
    var k :| 0 <= k < |order| && order[k] == i;
    var a, b := ConcatStretch(chains, order, k);
    assert layout == (before + a) + chains[i] + (b + behind);
  }

  /**
   * Collects arcs, merges chains and places them. All blocks are reachable, and no arc leads to the entry.
   */
  method RunOnFunction(g: Graph)
    returns (layout: seq<nat>, chains: seq<seq<nat>>, arcs: seq<Arc>, ghost entry: nat, ghost order: seq<nat>, ghost pops: seq<nat>,
      ghost rank: seq<nat>)
    requires Valid(g) && (forall b: nat :: b < g.blocks ==> Reachable(g, b)) && forall b: nat :: 0 !in g.succs(b)
    ensures Descending(arcs) && OnlyArcs(g, arcs) && forall b: nat, c | b < g.blocks && c in g.succs(b) :: HasArc(g, arcs, b, c)
    ensures pops == [0] + Queued(g, pops) && Ranked(Found(g, pops), rank, arcs)
    ensures Merged(arcs, Singletons(g.blocks), chains) && Good(g, chains, Contents(Singletons(g.blocks)))
    ensures LaidOut(g, chains, layout)
    ensures entry < |chains| && chains[entry] != [] && chains[entry][0] == 0 && Rounds(g, chains, entry, order, |chains|)
    ensures (forall k :: 0 <= k < |order| ==> order[k] < |chains|)
      && Placing(Identity(g.blocks), layout, chains[entry][|chains[entry]| - 1], Concat(chains, order))
  {
    hide Good, LaidOut, Reachable, Placing, Parted, Rounds, Merged, OnlyArcs, Descending, Ranked, Queued, Found;
    var visited;
    visited, arcs, pops, rank := CollectArcs(g);
    assert visited == All(g.blocks) by {
      forall b: nat | b in visited ensures b < g.blocks { ReachableIn(g, b); }
    }
    chains := Merge(g, arcs);
    MergedParted(g, chains);
    layout, entry, order := Place(g, chains, Identity(g.blocks));
    PlacedIsLaidOut(g, chains, layout, entry, order);
  }

  lemma ReachableIn(g: Graph, b: nat)
    requires Valid(g) && Reachable(g, b)
    ensures b < g.blocks
  {
    var p :| IsPath(g, p) && p[|p| - 1] == b;
    PathIn(g, p);
  }

  lemma InRange(g: Graph, b: nat, c: nat)
    requires Valid(g) && b < g.blocks && c in g.succs(b)
    ensures c < g.blocks
  {
    var ss := g.succs(b);
    var i :| 0 <= i < |ss| && ss[i] == c;
  }

  lemma {:induction false} PathIn(g: Graph, p: seq<nat>)
    requires Valid(g) && IsPath(g, p)
    ensures p[|p| - 1] < g.blocks
  {
    if |p| > 1 {
      assert IsPath(g, p[..|p| - 1]);
      PathIn(g, p[..|p| - 1]);
      InRange(g, p[|p| - 2], p[|p| - 1]);
    }
  }
}
