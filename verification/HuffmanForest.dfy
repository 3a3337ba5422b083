/** The trees that merging builds from the symbols in use, and what their leaves add up to. */
module HuffmanForest {
  import opened HuffmanHeap
  import opened HuffmanOptimal

  // ----- trees -----

  datatype Tree = Leaf(sym: nat) | Node(id: nat, one: Tree, zero: Tree)

  function Root(t: Tree): nat { if t.Leaf? then t.sym else t.id }

  function Look(f: seq<nat>, x: nat): nat { if x < |f| then f[x] else 0 }

  function Weight(t: Tree, f: seq<nat>): nat {
    match t
    case Leaf(s) => Look(f, s)
    case Node(_, a, b) => Weight(a, f) + Weight(b, f)
  }

  /** What is added up: the merged weights, or the frequencies of the leaves times given lengths. */
  datatype Measure = Merged | Leaves(l: seq<nat>)

  function Value(m: Measure, t: Tree, f: seq<nat>): nat {
    match t
    case Leaf(s) => if m.Merged? then 0 else Look(f, s) * Look(m.l, s)
    case Node(_, a, b) => Value(m, a, f) + Value(m, b, f) + if m.Merged? then Weight(t, f) else 0
  }

  /** Leaves have their depth as length. */
  predicate Depths(t: Tree, l: seq<nat>, d: nat) {
    match t
    case Leaf(s) => Look(l, s) == d
    case Node(_, a, b) => Depths(a, l, d + 1) && Depths(b, l, d + 1)
  }

  lemma OneDeeper(d: nat, a: nat, b: nat)
    ensures (d + 1) * a + (d + 1) * b == d * (a + b) + (a + b)
  {
  }

  lemma {:induction false} DepthsCost(t: Tree, f: seq<nat>, l: seq<nat>, d: nat)
    requires Depths(t, l, d)
    ensures Value(Leaves(l), t, f) == Value(Merged, t, f) + d * Weight(t, f)
  {
    if t.Node? {
      DepthsCost(t.one, f, l, d + 1);
      DepthsCost(t.zero, f, l, d + 1);
      OneDeeper(d, Weight(t.one, f), Weight(t.zero, f));
    }
  }

  /** The bits `q` lead from the top of `t` to `u`. */
  predicate Leads(t: Tree, q: Word, u: Tree) {
    if q == [] then t == u else t.Node? && Leads(if q[0] then t.one else t.zero, q[1..], u)
  }

  lemma {:induction false} LeadsOn(t: Tree, q: Word, u: Tree, b: bool)
    requires Leads(t, q, u) && u.Node?
    ensures Leads(t, q + [b], if b then u.one else u.zero)
  {
    if q == [] {
      assert (q + [b])[1..] == [];
    } else {
      LeadsOn(if q[0] then t.one else t.zero, q[1..], u, b);
      assert (q + [b])[1..] == q[1..] + [b];
    }
  }

  lemma {:induction false} LeadsToLeaves(t: Tree, q: Word, p: Word, i: nat, j: nat)
    requires Leads(t, q, Leaf(i)) && Leads(t, p, Leaf(j)) && q <= p
    ensures i == j
  {
    if q != [] {
      assert p == q + p[|q|..] && p[1..] == q[1..] + p[|q|..];
      LeadsToLeaves(if q[0] then t.one else t.zero, q[1..], p[1..], i, j);
    }
  }

  // ----- sums over the heap -----

  predicate Within(h: seq<nat>, n: nat) { forall k :: 0 <= k < |h| ==> h[k] < n }

  function Weights(h: seq<nat>, f: seq<nat>): (w: seq<nat>)
    requires Within(h, |f|)
    ensures |w| == |h| && forall k :: 0 <= k < |h| ==> w[k] == f[h[k]]
  {
    seq(|h|, k requires 0 <= k < |h| => f[h[k]])
  }

  function Total(m: Measure, h: seq<nat>, trees: seq<Tree>, f: seq<nat>): nat
    requires Within(h, |trees|)
  {
    if h == [] then 0 else Total(m, h[..|h| - 1], trees, f) + Value(m, trees[h[|h| - 1]], f)
  }

  lemma TotalSnoc(m: Measure, h: seq<nat>, x: nat, trees: seq<Tree>, f: seq<nat>)
    requires Within(h, |trees|) && x < |trees|
    ensures Within(h + [x], |trees|)
    ensures Total(m, h + [x], trees, f) == Total(m, h, trees, f) + Value(m, trees[x], f)
  {
    assert (h + [x])[..|h|] == h;
  }

  lemma {:induction false} TotalAt(m: Measure, h: seq<nat>, i: nat, x: nat, trees: seq<Tree>, f: seq<nat>)
    requires Within(h, |trees|) && x < |trees| && i <= |h|
    ensures Within(At(h, i, x), |trees|)
    ensures Total(m, At(h, i, x), trees, f) == Total(m, h, trees, f) + Value(m, trees[x], f)
    decreases |h|
  {
    AtSnoc(h, i, x);
    if i == |h| {
      TotalSnoc(m, h, x, trees, f);
    } else {
      TotalAt(m, h[..|h| - 1], i, x, trees, f);
      TotalSnoc(m, At(h[..|h| - 1], i, x), h[|h| - 1], trees, f);
    }
  }

  lemma {:induction false} TotalSame(m: Measure, h: seq<nat>, trees: seq<Tree>, x: nat, t: Tree, f: seq<nat>)
    requires Within(h, |trees|) && x < |trees| && x !in h
    ensures Total(m, h, trees[x := t], f) == Total(m, h, trees, f)
  {
    if h != [] { TotalSame(m, h[..|h| - 1], trees, x, t, f); }
  }

  lemma InsertAtPlace(h: seq<nat>, x: nat, f: seq<nat>)
    requires Within(h, |f|) && x < |f|
    ensures Insert(h, x, f) == At(h, Place(Weights(h, f), f[x]), x)
    ensures Weights(Insert(h, x, f), f) == At(Weights(h, f), Place(Weights(h, f), f[x]), f[x])
  {
    InsertAt(h, x, Place(Weights(h, f), f[x]), f);
  }

  // ----- the first heap: the symbols in use -----

  function Collected(f: seq<nat>, i: nat): (h: seq<nat>)
    requires i <= |f|
    ensures Within(h, |f|)
  {
    if i == 0 then [] else
    var h := Collected(f, i - 1);
    if f[i - 1] > 0 then Insert(h, i - 1, f) else h
  }

  ghost predicate Distinct(h: seq<nat>) { forall i, j :: 0 <= i < j < |h| ==> h[i] != h[j] }

  lemma DistinctAt(h: seq<nat>, i: nat, x: nat)
    requires Distinct(h) && x !in h && i <= |h|
    ensures Distinct(At(h, i, x)) && forall y :: y in At(h, i, x) <==> y == x || y in h
  {
    var r := At(h, i, x);
    assert r[i] == x && (forall k :: 0 <= k < i ==> r[k] == h[k]) && forall k :: i <= k < |h| ==> r[k + 1] == h[k];
  }

  /** `h` holds each of the first `n` nodes that has a weight, and nothing else, the lightest last. */
  ghost predicate Holds(h: seq<nat>, f: seq<nat>, n: nat) {
    && n <= |f| && HeapOrder(h, f) && Distinct(h)
    && (forall x: nat | x in h :: x < n && f[x] > 0)
    && forall x: nat | x < n && f[x] > 0 :: x in h
  }

  lemma HoldsOneMore(h: seq<nat>, f: seq<nat>, n: nat)
    requires Holds(h, f, n) && n < |f|
    ensures Holds(if f[n] > 0 then Insert(h, n, f) else h, f, n + 1)
  {
    if f[n] > 0 {
      assert Within(h, |f|);
      hide At, Insert, HeapOrder, Distinct, Place, Within;
      InsertAtPlace(h, n, f);
      InsertDescending(h, n, f);
      var r := Insert(h, n, f);
      DistinctAt(h, Place(Weights(h, f), f[n]), n);
      assert forall x: nat :: x in r <==> x == n || x in h;
      forall x: nat | x in r ensures x < n + 1 && f[x] > 0 {}
      forall x: nat | x < n + 1 && f[x] > 0 ensures x in r {}
    }
  }

  lemma HoldsNothing(f: seq<nat>)
    ensures Holds([], f, 0)
  {
  }

  lemma {:induction false} CollectedSymbols(f: seq<nat>, i: nat)
    requires i <= |f|
    ensures Holds(Collected(f, i), f, i) && |Collected(f, i)| <= i
  {
    hide Holds, Insert;
    if i > 0 {
      CollectedSymbols(f, i - 1);
      HoldsOneMore(Collected(f, i - 1), f, i - 1);
    } else {
      HoldsNothing(f);
    }
  }

  lemma WeightsAt(h: seq<nat>, i: nat, x: nat, f: seq<nat>)
    requires Within(h, |f|) && x < |f| && i <= |h|
    ensures Within(At(h, i, x), |f|) && Weights(At(h, i, x), f) == At(Weights(h, f), i, f[x])
  {
  }

  lemma {:induction false} CollectedDot(f: seq<nat>, l: seq<nat>, i: nat)
    requires i <= |l| <= |f|
    ensures Within(Collected(f, i), |l|)
    ensures Dot(Weights(Collected(f, i), f), Weights(Collected(f, i), l)) == Dot(f[..i], l[..i])
  {
    hide At, Insert, Weights;
    if i > 0 {
      CollectedDot(f, l, i - 1);
      assert f[..i][..i - 1] == f[..i - 1] && l[..i][..i - 1] == l[..i - 1];
      var h := Collected(f, i - 1);
      if f[i - 1] > 0 {
        var k := Place(Weights(h, f), f[i - 1]);
        InsertAtPlace(h, i - 1, f);
        WeightsAt(h, k, i - 1, l);
        DotAt(Weights(h, f), Weights(h, l), k, f[i - 1], l[i - 1]);
      }
    }
  }

  // ----- merging -----

  function Abs(x: int): nat { if x < 0 then -x else x }

  /** Node `p` joins two earlier nodes, which have it as their parent: one with a plus, the other with a minus. */
  predicate Joins(p: nat, preds: seq<int>, trees: seq<Tree>)
    requires p < |trees| == |preds|
  {
    && trees[p].Node? && trees[p].id == p
    && (var a, b := Root(trees[p].one), Root(trees[p].zero);
        && a < p && b < p && trees[a] == trees[p].one && trees[b] == trees[p].zero
        && preds[a] == p && preds[b] + p == 0)
  }

  /** Node `x` is below the later node that is its parent, on the side its sign tells. */
  predicate Hangs(x: nat, preds: seq<int>, trees: seq<Tree>, top: nat)
    requires x < |trees| == |preds| && top <= |trees|
  {
    var p := Abs(preds[x]);
    x < p < top && trees[p].Node? && trees[x] == if preds[x] >= 0 then trees[p].one else trees[p].zero
  }

  /** The symbols are the first `bytes` nodes, the nodes from there to `top` join others. */
  ghost predicate Joined(bytes: nat, top: nat, preds: seq<int>, trees: seq<Tree>) {
    && bytes <= top <= |trees| == |preds|
    && (forall i: nat | i < bytes :: trees[i] == Leaf(i))
    && forall p: nat | bytes <= p < top :: Joins(p, preds, trees)
  }

  /** Each node in use is in the heap or hangs below another one, and no joined node is in the heap. */
  ghost predicate Placed(bytes: nat, top: nat, h: seq<nat>, f: seq<nat>, preds: seq<int>, trees: seq<Tree>)
    requires Joined(bytes, top, preds, trees) && |f| == |trees|
  {
    && (forall x: nat | x < top && f[x] > 0 :: x in h || Hangs(x, preds, trees, top))
    && forall p: nat | bytes <= p < top :: Joins(p, preds, trees) && Root(trees[p].one) !in h && Root(trees[p].zero) !in h
  }

  ghost predicate Weighed(bytes: nat, top: nat, f: seq<nat>, trees: seq<Tree>) {
    && bytes <= top <= |f| == |trees|
    && forall x: nat | x < top :: f[x] == Weight(trees[x], f[..bytes])
  }

  /** A heap in order that holds different nodes in use. */
  ghost predicate Queue(h: seq<nat>, f: seq<nat>, top: nat) {
    top <= |f| && HeapOrder(h, f) && Distinct(h) && forall x: nat | x in h :: x < top && f[x] > 0
  }

  ghost predicate Forest(bytes: nat, top: nat, h: seq<nat>, f: seq<nat>, preds: seq<int>, trees: seq<Tree>) {
    && 0 < bytes && Joined(bytes, top, preds, trees) && Queue(h, f, top) && Weighed(bytes, top, f, trees)
    && Placed(bytes, top, h, f, preds, trees)
  }

  lemma ForestStarts(bytes: nat, f: seq<nat>, preds: seq<int>, trees: seq<Tree>)
    requires 0 < bytes <= |f| == |preds| == |trees|
    requires forall i: nat | i < bytes :: trees[i] == Leaf(i)
    ensures Forest(bytes, bytes, Collected(f, bytes), f, preds, trees)
  {
    CollectedSymbols(f, bytes);
  }

  lemma RootOf(x: nat, bytes: nat, top: nat, preds: seq<int>, trees: seq<Tree>)
    requires Joined(bytes, top, preds, trees) && x < top
    ensures Root(trees[x]) == x
  {
    if x >= bytes { assert Joins(x, preds, trees); }
  }

  /** `a` becomes the child of `p` that is read as a 1, and `b` the one that is read as a 0. */
  function WithParent(preds: seq<int>, a: nat, b: nat, p: nat): (r: seq<int>)
    requires a < |preds| && b < |preds|
    ensures |r| == |preds| && (a != b ==> r[a] == p) && r[b] == -(p as int)
    ensures forall x :: 0 <= x < |preds| && x != a && x != b ==> r[x] == preds[x]
  {
    preds[a := p][b := -(p as int)]
  }

  lemma JoinOneMore(bytes: nat, top: nat, h: seq<nat>, f: seq<nat>, preds: seq<int>, trees: seq<Tree>, a: nat, b: nat)
    requires Joined(bytes, top, preds, trees) && |f| == |trees| && Placed(bytes, top, h, f, preds, trees)
    requires a in h && b in h && a != b && a < top && b < top < |trees|
    ensures Joined(bytes, top + 1, WithParent(preds, a, b, top), trees[top := Node(top, trees[a], trees[b])])
  {
    RootOf(a, bytes, top, preds, trees);
    RootOf(b, bytes, top, preds, trees);
    var preds1, trees1 := WithParent(preds, a, b, top), trees[top := Node(top, trees[a], trees[b])];
    forall p: nat | bytes <= p < top + 1 ensures Joins(p, preds1, trees1) {
      if p < top { assert Joins(p, preds, trees); }
    }
  }

  lemma PlaceOneMore(bytes: nat, top: nat, h: seq<nat>, g: seq<nat>, f: seq<nat>, preds: seq<int>, trees: seq<Tree>,
      a: nat, b: nat, w: nat)
    requires Joined(bytes, top, preds, trees) && |f| == |trees| && Placed(bytes, top, h, f, preds, trees)
    requires a in h && b in h && a != b && a < top && b < top < |trees| && top !in h
    requires forall x: nat :: x in g <==> x == top || (x in h && x != a && x != b)
    requires Joined(bytes, top + 1, WithParent(preds, a, b, top), trees[top := Node(top, trees[a], trees[b])])
    ensures Placed(bytes, top + 1, g, f[top := w], WithParent(preds, a, b, top), trees[top := Node(top, trees[a], trees[b])])
  {
    var preds1, trees1 := WithParent(preds, a, b, top), trees[top := Node(top, trees[a], trees[b])];
    forall x: nat | x < top + 1 && f[top := w][x] > 0 ensures x in g || Hangs(x, preds1, trees1, top + 1) {
      if x < top && x !in h { assert Hangs(x, preds, trees, top); }
    }
    RootOf(a, bytes, top, preds, trees);
    RootOf(b, bytes, top, preds, trees);
    forall p: nat | bytes <= p < top + 1
      ensures Joins(p, preds1, trees1) && Root(trees1[p].one) !in g && Root(trees1[p].zero) !in g
    {
      assert Joins(p, preds1, trees1);
      if p < top { assert Joins(p, preds, trees) && trees1[p] == trees[p]; }
    }
  }

  lemma WeighOneMore(bytes: nat, top: nat, f: seq<nat>, trees: seq<Tree>, a: nat, b: nat)
    requires Weighed(bytes, top, f, trees) && a < top && b < top < |f|
    ensures Weighed(bytes, top + 1, f[top := f[a] + f[b]], trees[top := Node(top, trees[a], trees[b])])
  {
    assert f[top := f[a] + f[b]][..bytes] == f[..bytes];
  }

  lemma QueueInsert(g: seq<nat>, f: seq<nat>, top: nat)
    requires Queue(g, f, top) && top < |f| && f[top] > 0
    ensures Queue(Insert(g, top, f), f, top + 1)
    ensures forall x: nat :: x in Insert(g, top, f) <==> x == top || x in g
  {
    InsertAtPlace(g, top, f);
    InsertDescending(g, top, f);
    hide At, Insert, HeapOrder;
    DistinctAt(g, Place(Weights(g, f), f[top]), top);
  }

  lemma QueueWithout(h: seq<nat>, f: seq<nat>, top: nat, w: nat)
    requires Queue(h, f, top) && h != [] && top < |f|
    ensures Queue(h[..|h| - 1], f[top := w], top)
    ensures forall x: nat :: x in h[..|h| - 1] <==> x in h && x != h[|h| - 1]
  {
    var g := h[..|h| - 1];
    assert h == g + [h[|h| - 1]];
    forall x: nat | x in g ensures x in h && x != h[|h| - 1] {
      var k: nat :| k < |g| && g[k] == x;
      assert h[k] == x;
    }
    forall k | 0 <= k < |g| ensures g[k] < top { assert h[k] in h; }
  }

  lemma QueueLast(h: seq<nat>, f: seq<nat>, top: nat)
    requires Queue(h, f, top)
    ensures HeapOrder(h, f) && top <= |f|
    ensures h != [] ==> h[|h| - 1] in h && h[|h| - 1] < top && f[h[|h| - 1]] > 0
  {
  }

  lemma QueueOneMore(h: seq<nat>, f: seq<nat>, top: nat) returns (g: seq<nat>, f1: seq<nat>)
    requires Queue(h, f, top) && |h| >= 2 && top < |f|
    ensures var n, a, b := |h|, h[|h| - 1], h[|h| - 2];
      && g == h[..n - 2] && a < top && b < top && a in h && b in h && a != b
      && f1 == f[top := f[a] + f[b]] && HeapOrder(g, f1) && Queue(Insert(g, top, f1), f1, top + 1)
      && forall x: nat :: x in Insert(g, top, f1) <==> x == top || (x in h && x != a && x != b)
  {
    hide Distinct, Insert, Queue, HeapOrder;
    g, f1 := QueueTwoLess(h, f, top);
    QueueInsert(g, f1, top);
  }

  /** Without its last two elements the heap is in order, whatever weight the next node gets. */
  lemma QueueTwoLess(h: seq<nat>, f: seq<nat>, top: nat) returns (g: seq<nat>, f1: seq<nat>)
    requires Queue(h, f, top) && |h| >= 2 && top < |f|
    ensures var n, a, b := |h|, h[|h| - 1], h[|h| - 2];
      && g == h[..n - 2] && a < top && b < top && a in h && b in h && a != b && f[a] > 0
      && f1 == f[top := f[a] + f[b]] && HeapOrder(g, f1) && Queue(g, f1, top)
      && forall x: nat :: x in g <==> x in h && x != a && x != b
  {
    hide Distinct, Queue, HeapOrder;
    var n, a, b := |h|, h[|h| - 1], h[|h| - 2];
    var h1 := h[..n - 1];
    g := h[..n - 2];
    assert h1[..n - 2] == g && h1[n - 2] == b;
    QueueLast(h, f, top);
    QueueWithout(h, f, top, 0);
    QueueLast(h1, f[top := 0], top);
    f1 := f[top := f[a] + f[b]];
    assert f1 == f[top := 0][top := f[a] + f[b]];
    QueueWithout(h1, f[top := 0], top, f[a] + f[b]);
    QueueLast(g, f1, top);
    forall x: nat ensures x in g <==> x in h && x != a && x != b { assert x in g <==> x in h1 && x != b; }
  }

  /** What the merge of the last two elements of the heap makes of the state. */
  lemma MergeKeepsForest(bytes: nat, top: nat, h: seq<nat>, f: seq<nat>, preds: seq<int>, trees: seq<Tree>)
    returns (g: seq<nat>, f1: seq<nat>, preds1: seq<int>, trees1: seq<Tree>)
    requires Forest(bytes, top, h, f, preds, trees) && top < |trees| && |h| >= 2
    ensures var n, a, b := |h|, h[|h| - 1], h[|h| - 2];
      && g == h[..n - 2] && a < top && b < top && f1 == f[top := f[a] + f[b]]
      && preds1 == WithParent(preds, a, b, top) && trees1 == trees[top := Node(top, trees[a], trees[b])]
      && HeapOrder(g, f1)
    ensures Forest(bytes, top + 1, Insert(g, top, f1), f1, preds1, trees1)
  {
    var a, b := h[|h| - 1], h[|h| - 2];
    g, f1 := QueueOneMore(h, f, top);
    preds1, trees1 := WithParent(preds, a, b, top), trees[top := Node(top, trees[a], trees[b])];
    hide Insert, Joined, Placed, Weighed, Queue, HeapOrder;
    WeighOneMore(bytes, top, f, trees, a, b);
    JoinOneMore(bytes, top, h, f, preds, trees, a, b);
    PlaceOneMore(bytes, top, h, Insert(g, top, f1), f, preds, trees, a, b, f[a] + f[b]);
  }

  // ----- what merging adds up to -----

  lemma MergeKeepsTotal(m: Measure, top: nat, h: seq<nat>, trees: seq<Tree>, f1: seq<nat>, freqs: seq<nat>)
    requires |h| >= 2 && Within(h, top) && top < |trees| == |f1|
    ensures var n, a, b := |h|, h[|h| - 1], h[|h| - 2];
      var t := Node(top, trees[a], trees[b]);
      Total(m, Insert(h[..n - 2], top, f1), trees[top := t], freqs)
        == Total(m, h, trees, freqs) + if m.Merged? then Weight(t, freqs) else 0
  {
    hide Insert, Weights;
    var n, a, b := |h|, h[|h| - 1], h[|h| - 2];
    var g, t := h[..n - 2], Node(top, trees[a], trees[b]);
    assert h == (g + [b]) + [a];
    TotalSnoc(m, g, b, trees, freqs);
    TotalSnoc(m, g + [b], a, trees, freqs);
    TotalSame(m, g, trees, top, t, freqs);
    InsertAtPlace(g, top, f1);
    TotalAt(m, g, Place(Weights(g, f1), f1[top]), top, trees[top := t], freqs);
  }

  lemma GreedyStep(w: seq<nat>)
    requires |w| >= 2
    ensures var n, x := |w|, w[|w| - 1] + w[|w| - 2];
      Greedy(w) == x + Greedy(At(w[..n - 2], Place(w[..n - 2], x), x))
  {
  }

  lemma MergeIsGreedy(top: nat, h: seq<nat>, f: seq<nat>, x: nat)
    requires |h| >= 2 && Within(h, top) && top < |f| && x == f[h[|h| - 1]] + f[h[|h| - 2]]
    ensures Greedy(Weights(h, f)) == x + Greedy(Weights(Insert(h[..|h| - 2], top, f[top := x]), f[top := x]))
  {
    hide Greedy, At, Insert;
    var n, w := |h|, Weights(h, f);
    GreedyStep(w);
    assert Weights(h[..n - 2], f[top := x]) == w[..n - 2];
    InsertAtPlace(h[..n - 2], top, f[top := x]);
  }

  /** For all lengths the trees add up to the same as the frequencies; with what is still to merge, costs add up to `goal`. */
  ghost predicate Adds(h: seq<nat>, f: seq<nat>, trees: seq<Tree>, freqs: seq<nat>, goal: nat) {
    && Within(h, |f|) && |f| == |trees|
    && Total(Merged, h, trees, freqs) + Greedy(Weights(h, f)) == goal
    && forall l: seq<nat> | |l| == |freqs| :: Total(Leaves(l), h, trees, freqs) == Dot(freqs, l)
  }

  ghost predicate Merging(top: nat, h: seq<nat>, f: seq<nat>, preds: seq<int>, trees: seq<Tree>, freqs: seq<nat>, goal: nat) {
    && |f| == 2 * |freqs| && f[..|freqs|] == freqs && 1 <= |h| && top + |h| <= 2 * |freqs|
    && Forest(|freqs|, top, h, f, preds, trees) && Adds(h, f, trees, freqs, goal)
  }

  lemma MergeKeepsAdds(top: nat, h: seq<nat>, f: seq<nat>, trees: seq<Tree>, freqs: seq<nat>, goal: nat, f1: seq<nat>)
    requires Adds(h, f, trees, freqs, goal) && |h| >= 2 && Within(h, top) && top < |f|
    requires var a, b := h[|h| - 1], h[|h| - 2];
      f[a] == Weight(trees[a], freqs) && f[b] == Weight(trees[b], freqs) && f1 == f[top := f[a] + f[b]]
    ensures var n, a, b := |h|, h[|h| - 1], h[|h| - 2];
      Adds(Insert(h[..n - 2], top, f1), f1, trees[top := Node(top, trees[a], trees[b])], freqs, goal)
  {
    hide Total, Greedy, Insert, Dot, Weights;
    var n, a, b := |h|, h[|h| - 1], h[|h| - 2];
    var g, t := h[..n - 2], Node(top, trees[a], trees[b]);
    MergeKeepsTotal(Merged, top, h, trees, f1, freqs);
    MergeIsGreedy(top, h, f, f[a] + f[b]);
    forall l: seq<nat> | |l| == |freqs|
      ensures Total(Leaves(l), Insert(g, top, f1), trees[top := t], freqs) == Dot(freqs, l)
    {
      MergeKeepsTotal(Leaves(l), top, h, trees, f1, freqs);
    }
  }

  lemma MergeStep(top: nat, h: seq<nat>, f: seq<nat>, preds: seq<int>, trees: seq<Tree>, freqs: seq<nat>, goal: nat)
    returns (g: seq<nat>, f1: seq<nat>, preds1: seq<int>, trees1: seq<Tree>)
    requires Merging(top, h, f, preds, trees, freqs, goal) && |h| >= 2
    ensures var n, a, b := |h|, h[|h| - 1], h[|h| - 2];
      && g == h[..n - 2] && a < top && b < top < |f| == |preds| && f1 == f[top := f[a] + f[b]]
      && preds1 == WithParent(preds, a, b, top) && HeapOrder(g, f1)
    ensures Merging(top + 1, Insert(g, top, f1), f1, preds1, trees1, freqs, goal)
  {
    hide Forest, Adds, Insert, HeapOrder, Weights;
    ForestWithin(|freqs|, top, h, f, preds, trees);
    g, f1, preds1, trees1 := MergeKeepsForest(|freqs|, top, h, f, preds, trees);
    assert f1[..|freqs|] == freqs;
    MergeKeepsAdds(top, h, f, trees, freqs, goal, f1);
  }

  lemma ForestWithin(bytes: nat, top: nat, h: seq<nat>, f: seq<nat>, preds: seq<int>, trees: seq<Tree>)
    requires Forest(bytes, top, h, f, preds, trees)
    ensures Within(h, top) && 0 < bytes <= top <= |f| == |preds| == |trees| && HeapOrder(h, f)
    ensures forall x: nat | x < top :: f[x] == Weight(trees[x], f[..bytes])
  {
    assert forall k :: 0 <= k < |h| ==> h[k] in h;
  }

  lemma {:induction false} LeavesTotal(h: seq<nat>, trees: seq<Tree>, freqs: seq<nat>, l: seq<nat>)
    requires |l| == |freqs| <= |trees| && Within(h, |freqs|)
    requires forall i: nat | i < |freqs| :: trees[i] == Leaf(i)
    ensures Total(Leaves(l), h, trees, freqs) == Dot(Weights(h, freqs), Weights(h, l))
    ensures Total(Merged, h, trees, freqs) == 0
  {
    if h != [] {
      var g := h[..|h| - 1];
      LeavesTotal(g, trees, freqs, l);
      assert Weights(h, freqs)[..|g|] == Weights(g, freqs) && Weights(h, l)[..|g|] == Weights(g, l);
    }
  }

  lemma AddsStarts(f: seq<nat>, trees: seq<Tree>, freqs: seq<nat>, h: seq<nat>)
    requires |f| == |trees| && |freqs| <= |f| && f[..|freqs|] == freqs && h == Collected(f, |freqs|)
    requires Within(h, |freqs|) && forall i: nat | i < |freqs| :: trees[i] == Leaf(i)
    ensures Adds(h, f, trees, freqs, Greedy(Weights(h, f)))
  {
    hide Total, Greedy, Dot, Collected;
    var n := |freqs|;
    assert Weights(h, f) == Weights(h, freqs);
    forall l: seq<nat> | |l| == n ensures Total(Leaves(l), h, trees, freqs) == Dot(freqs, l) {
      CollectedDot(f, l, n);
      assert l[..n] == l;
      LeavesTotal(h, trees, freqs, l);
    }
    LeavesTotal(h, trees, freqs, freqs);
  }

  lemma HoldsSome(h: seq<nat>, f: seq<nat>, n: nat)
    requires Holds(h, f, n)
    ensures Within(h, n) && n <= |f| && ((exists i :: 0 <= i < n && f[i] > 0) ==> h != [])
  {
    assert forall k :: 0 <= k < |h| ==> h[k] in h;
  }

  lemma MergingStarts(f: seq<nat>, preds: seq<int>, trees: seq<Tree>, freqs: seq<nat>)
    requires |f| == |preds| == |trees| == 2 * |freqs| && f[..|freqs|] == freqs
    requires (exists i :: 0 <= i < |freqs| && freqs[i] > 0) && forall i: nat | i < |freqs| :: trees[i] == Leaf(i)
    ensures var h := Collected(f, |freqs|);
      Merging(|freqs|, h, f, preds, trees, freqs, Greedy(Weights(h, f)))
  {
    var n := |freqs|;
    var h := Collected(f, n);
    ForestStarts(n, f, preds, trees);
    CollectedSymbols(f, n);
    HoldsSome(h, f, n);
    hide Holds, Forest, Adds, Collected, Greedy;
    var i: nat :| i < n && freqs[i] > 0;
    assert f[i] == freqs[i];
    AddsStarts(f, trees, freqs, h);
  }
}
