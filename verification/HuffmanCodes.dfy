/** Huffman codes: the two rarest nodes are merged until one is left, and the bits are read off a signed array of parents. */
module HuffmanCodes {
  import opened Arithmetic
  import opened HuffmanForest
  import opened HuffmanHeap
  import opened HuffmanOptimal

  datatype Option<T> = None | Some(value: T)

  datatype Huffcode = Huffcode(nbits: nat, code: nat)

  /** The `n` lowest bits of `c`, the highest of them first. */
  function Bits(n: nat, c: nat): (w: Word)
    ensures |w| == n
  {
    if n == 0 then [] else Bits(n - 1, c / 2) + [c % 2 == 1]
  }

  function Words(codes: seq<Option<Huffcode>>): (w: seq<Word>)
    ensures |w| == |codes|
  {
    seq(|codes|, i requires 0 <= i < |codes| =>
      if codes[i].None? then [] else Bits(codes[i].value.nbits, codes[i].value.code))
  }

  /** No word of a symbol in use begins with the word of another one. */
  ghost predicate PrefixCode(freqs: seq<nat>, words: seq<Word>) {
    && |words| == |freqs|
    && forall i, j :: 0 <= i < |freqs| && 0 <= j < |freqs| && i != j && freqs[i] > 0 && freqs[j] > 0 ==>
      !(words[i] <= words[j])
  }

  /** No prefix code makes the text shorter. */
  ghost predicate Shortest(freqs: seq<nat>, words: seq<Word>) {
    && |words| == |freqs|
    && forall alt :: PrefixCode(freqs, alt) ==> Dot(freqs, Lengths(words)) <= Dot(freqs, Lengths(alt))
  }

  // ----- reading the codes off -----

  /** From the last node down to `x`: the side taken at each parent. */
  function Path(preds: seq<int>, x: nat): Word
    requires x < |preds|
    decreases |preds| - x
  {
    var p := Abs(preds[x]);
    if p <= x || p >= |preds| then [] else Path(preds, p) + [preds[x] >= 0]
  }

  /** All nodes in use hang below the root, which is its own parent. */
  ghost predicate Done(root: nat, top: nat, f: seq<nat>, preds: seq<int>, trees: seq<Tree>, bytes: nat) {
    && Joined(bytes, top, preds, trees) && Weighed(bytes, top, f, trees) && root < top && preds[root] == root
    && forall x: nat | x < top && f[x] > 0 :: x == root || Hangs(x, preds, trees, top)
  }

  lemma LastMerged(root: nat, top: nat, f: seq<nat>, preds: seq<int>, trees: seq<Tree>, bytes: nat)
    requires Forest(bytes, top, [root], f, preds, trees)
    ensures root < top <= |preds| && Done(root, top, f, preds[root := root], trees, bytes)
  {
    assert root in [root];
    var q := preds[root := root];
    forall p: nat | bytes <= p < top ensures Joins(p, q, trees) {
      assert Joins(p, preds, trees) && Root(trees[p].one) !in [root] && Root(trees[p].zero) !in [root];
    }
    forall x: nat | x < top && f[x] > 0 ensures x == root || Hangs(x, q, trees, top) {
      assert x in [root] || Hangs(x, preds, trees, top);
    }
  }

  lemma {:induction false} PathLeads(x: nat, root: nat, top: nat, f: seq<nat>, preds: seq<int>, trees: seq<Tree>, bytes: nat)
    requires Done(root, top, f, preds, trees, bytes) && x < top && f[x] > 0
    ensures Leads(trees[root], Path(preds, x), trees[x])
    decreases top - x
  {
    if x != root {
      assert Hangs(x, preds, trees, top);
      var p := Abs(preds[x]);
      assert f[p] == Weight(trees[p], f[..bytes]);
      PathLeads(p, root, top, f, preds, trees, bytes);
      LeadsOn(trees[root], Path(preds, p), trees[p], preds[x] >= 0);
    }
  }

  lemma {:induction false} PathDepths(x: nat, top: nat, preds: seq<int>, trees: seq<Tree>, bytes: nat, l: seq<nat>)
    requires Joined(bytes, top, preds, trees) && x < top
    requires |l| == bytes && forall i: nat | i < bytes :: l[i] == |Path(preds, i)|
    ensures Depths(trees[x], l, |Path(preds, x)|)
    decreases x
  {
    if x >= bytes {
      assert Joins(x, preds, trees);
      PathDepths(Root(trees[x].one), top, preds, trees, bytes, l);
      PathDepths(Root(trees[x].zero), top, preds, trees, bytes, l);
    }
  }

  /** The merged weights are a lower bound for every prefix code. */
  lemma LowerBound(f: seq<nat>, freqs: seq<nat>, alt: seq<Word>)
    requires |freqs| <= |f| && f[..|freqs|] == freqs && PrefixCode(freqs, alt)
    ensures Greedy(Weights(Collected(f, |freqs|), f)) <= Dot(freqs, Lengths(alt))
  {
    hide Greedy, Dot, Collected, Kraft, Share;
    var n := |freqs|;
    var h := Collected(f, n);
    CollectedSymbols(f, n);
    HoldsSome(h, f, n);
    CollectedDot(f, Lengths(alt), n);
    assert Lengths(alt)[..n] == Lengths(alt);
    var c := seq(|h|, k requires 0 <= k < |h| => alt[h[k]]);
    assert Weights(h, Lengths(alt)) == Lengths(c);
    UsedPrefixFree(h, f, freqs, alt, c);
    var top := LongestWord(c);
    PrefixFreeKraft(c, top);
    HeapDescending(h, f);
    GreedyIsLeast(Weights(h, f), Lengths(c), top);
  }

  lemma HeapDescending(h: seq<nat>, f: seq<nat>)
    requires HeapOrder(h, f)
    ensures Within(h, |f|) && Descending(Weights(h, f))
  {
  }

  lemma UsedPrefixFree(h: seq<nat>, f: seq<nat>, freqs: seq<nat>, alt: seq<Word>, c: seq<Word>)
    requires Holds(h, f, |freqs|) && f[..|freqs|] == freqs && PrefixCode(freqs, alt)
    requires |c| == |h| && forall k :: 0 <= k < |h| ==> h[k] < |alt| && c[k] == alt[h[k]]
    ensures PrefixFree(c)
  {
    forall i, j | 0 <= i < |c| && 0 <= j < |c| && i != j ensures !(c[i] <= c[j]) {
      assert h[i] in h && h[j] in h && freqs[h[i]] == f[h[i]] && freqs[h[j]] == f[h[j]];
      assert h[i] != h[j];
    }
  }

  lemma {:induction false} LongestWord(c: seq<Word>) returns (top: nat)
    ensures AtMost(Lengths(c), top)
  {
    if c == [] {
      top := 0;
    } else {
      var n := |c| - 1;
      top := LongestWord(c[..n]);
      assert forall i :: 0 <= i < n ==> Lengths(c)[i] == Lengths(c[..n])[i];
      if |c[n]| > top { top := |c[n]|; }
    }
  }

  lemma {:induction false} DotAgrees(f: seq<nat>, l: seq<nat>, m: seq<nat>)
    requires |f| == |l| == |m| && forall i :: 0 <= i < |f| && f[i] > 0 ==> l[i] == m[i]
    ensures Dot(f, l) == Dot(f, m)
  {
    if f != [] { DotAgrees(f[..|f| - 1], l[..|f| - 1], m[..|f| - 1]); }
  }

  /** The words are those read off a finished tree. */
  ghost predicate ReadOff(words: seq<Word>, freqs: seq<nat>, preds: seq<int>) {
    |words| == |freqs| <= |preds| && forall i: nat | i < |freqs| && freqs[i] > 0 :: words[i] == Path(preds, i)
  }

  lemma ReadOffPrefixCode(root: nat, top: nat, f: seq<nat>, preds: seq<int>, trees: seq<Tree>, freqs: seq<nat>, words: seq<Word>)
    requires Done(root, top, f, preds, trees, |freqs|) && f[..|freqs|] == freqs && ReadOff(words, freqs, preds)
    ensures PrefixCode(freqs, words)
  {
    forall i: nat, j: nat | i < |freqs| && j < |freqs| && i != j && freqs[i] > 0 && freqs[j] > 0
      ensures !(words[i] <= words[j])
    {
      PathLeads(i, root, top, f, preds, trees, |freqs|);
      PathLeads(j, root, top, f, preds, trees, |freqs|);
      if words[i] <= words[j] { LeadsToLeaves(trees[root], words[i], words[j], i, j); }
    }
  }

  lemma ReadOffCost(root: nat, top: nat, f: seq<nat>, preds: seq<int>, trees: seq<Tree>, freqs: seq<nat>, words: seq<Word>, goal: nat)
    requires Done(root, top, f, preds, trees, |freqs|) && f[..|freqs|] == freqs && ReadOff(words, freqs, preds)
    requires Adds([root], f, trees, freqs, goal)
    ensures Dot(freqs, Lengths(words)) == goal
  {
    hide Dot;
    var l: seq<nat> := seq(|freqs|, i requires 0 <= i < |freqs| => |Path(preds, i)|);
    PathDepths(root, top, preds, trees, |freqs|, l);
    assert Path(preds, root) == [];
    DepthsCost(trees[root], freqs, l, 0);
    TotalSnoc(Merged, [], root, trees, freqs);
    TotalSnoc(Leaves(l), [], root, trees, freqs);
    assert [] + [root] == [root];
    DotAgrees(freqs, Lengths(words), l);
  }

  lemma ReadOffShortest(root: nat, top: nat, f0: seq<nat>, f: seq<nat>, preds: seq<int>, trees: seq<Tree>, freqs: seq<nat>, words: seq<Word>)
    requires Done(root, top, f, preds, trees, |freqs|) && f[..|freqs|] == freqs && ReadOff(words, freqs, preds)
    requires |freqs| <= |f0| && f0[..|freqs|] == freqs
    requires Adds([root], f, trees, freqs, Greedy(Weights(Collected(f0, |freqs|), f0)))
    ensures PrefixCode(freqs, words) && Shortest(freqs, words)
  {
    hide Dot, Done, Adds, ReadOff, Greedy, Collected;
    ReadOffPrefixCode(root, top, f, preds, trees, freqs, words);
    ReadOffCost(root, top, f, preds, trees, freqs, words, Greedy(Weights(Collected(f0, |freqs|), f0)));
    forall alt | PrefixCode(freqs, alt) ensures Dot(freqs, Lengths(words)) <= Dot(freqs, Lengths(alt)) {
      LowerBound(f0, freqs, alt);
    }
  }

  // ----- the program -----

  function Pow2Times(b: bool, n: nat): nat { if b then Pow2(n) else 0 }

  lemma {:induction false} BitsMore(n: nat, c: nat, b: bool)
    requires c < Pow2(n)
    ensures Bits(n + 1, c + Pow2Times(b, n)) == [b] + Bits(n, c) && c + Pow2Times(b, n) < Pow2(n + 1)
  {
    if n > 0 {
      var d := c + Pow2Times(b, n);
      assert d / 2 == c / 2 + Pow2Times(b, n - 1) && d % 2 == c % 2;
      BitsMore(n - 1, c / 2, b);
      assert ([b] + Bits(n - 1, c / 2)) + [c % 2 == 1] == [b] + (Bits(n - 1, c / 2) + [c % 2 == 1]);
    }
  }

  /** Going from parent to parent from `x` ends, at a node that is its own parent. */
  predicate Ends(preds: seq<int>, x: nat)
    requires x < |preds|
    decreases |preds| - x
  {
    var p := Abs(preds[x]);
    p == x || (x < p < |preds| && Ends(preds, p))
  }

  lemma {:induction false} DoneEnds(x: nat, root: nat, top: nat, f: seq<nat>, preds: seq<int>, trees: seq<Tree>, bytes: nat)
    requires Done(root, top, f, preds, trees, bytes) && x < top && f[x] > 0
    ensures Ends(preds, x)
    decreases top - x
  {
    if x != root {
      assert Hangs(x, preds, trees, top);
      assert f[Abs(preds[x])] == Weight(trees[Abs(preds[x])], f[..bytes]);
      DoneEnds(Abs(preds[x]), root, top, f, preds, trees, bytes);
    }
  }

  /** Climbs from a symbol to the root; each step puts a bit in front of those read so far. */
  method ReadCode(preds: array<int>, i: nat) returns (c: Huffcode)
    requires i < preds.Length && Ends(preds[..], i)
    ensures Bits(c.nbits, c.code) == Path(preds[..], i) && c.code < Pow2(c.nbits)
  {
    var bc, bn, ix := 0, 0, i;
    while Abs(preds[ix]) != ix
      invariant ix < preds.Length && Ends(preds[..], ix) && 0 <= bn && 0 <= bc < Pow2(bn)
      invariant Path(preds[..], i) == Path(preds[..], ix) + Bits(bn, bc)
      decreases preds.Length - ix
    {
      var bit := preds[ix] >= 0;
      BitsMore(bn, bc, bit);
      bc := bc + Pow2Times(bit, bn);
      ix := Abs(preds[ix]);
      bn := bn + 1;
    }
    c := Huffcode(bn, bc);
  }

  /** Puts each symbol in use into the heap. */
  method Collect(heap: Heap, bytes: nat)
    requires heap.Valid() && heap.n == 0 && bytes <= heap.h.Length && bytes <= heap.f.Length
    modifies heap, heap.h
    ensures heap.Valid() && heap.h[..heap.n] == Collected(heap.f[..], bytes)
  {
    hide Insert, HeapOrder;
    ghost var f := heap.f[..];
    var i := 0;
    while i < bytes
      invariant 0 <= i <= bytes && heap.Valid() && heap.n <= i && heap.f[..] == f
      invariant heap.h[..heap.n] == Collected(f, i)
    {
      CollectedSymbols(f, i);
      if heap.f[i] > 0 { heap.Add(i); }
      i := i + 1;
    }
  }

  lemma MergingBounds(next: nat, h: seq<nat>, f: seq<nat>, preds: seq<int>, trees: seq<Tree>, freqs: seq<nat>, goal: nat)
    requires Merging(next, h, f, preds, trees, freqs, goal)
    ensures 1 <= |h| && next + |h| <= 2 * |freqs| == |f| == |preds| && Within(h, next) && HeapOrder(h, f)
  {
    ForestWithin(|freqs|, next, h, f, preds, trees);
  }

  lemma MergingEnds(next: nat, h: seq<nat>, f: seq<nat>, preds: seq<int>, trees: seq<Tree>, freqs: seq<nat>, goal: nat)
    requires Merging(next, h, f, preds, trees, freqs, goal) && |h| == 1
    ensures h[0] < |preds| && f[..|freqs|] == freqs && Adds([h[0]], f, trees, freqs, goal)
    ensures Done(h[0], next, f, preds[h[0] := h[0]], trees, |freqs|)
  {
    assert h == [h[0]];
    LastMerged(h[0], next, f, preds, trees, |freqs|);
  }

  method SetParent(preds: array<int>, r1: nat, r2: nat, next: nat)
    requires r1 < preds.Length && r2 < preds.Length
    modifies preds
    ensures preds[..] == WithParent(old(preds[..]), r1, r2, next)
  {
    preds[r1] := next;
    preds[r2] := -(next as int);
  }

  method RemoveTwo(heap: Heap, preds: array<int>, next: nat)
    requires heap.Valid() && heap.n > 1 && next < heap.f.Length == preds.Length && HeapOrder(heap.h[..heap.n], heap.f[..])
    requires (preds as object) != heap.f && (preds as object) != heap.h && Within(heap.h[..heap.n], next)
    modifies heap, heap.h, heap.f, preds
    ensures heap.Valid() && heap.n == old(heap.n) - 1
    ensures var h, f := old(heap.h[..heap.n]), old(heap.f[..]);
      var a, b := h[|h| - 1], h[|h| - 2];
      && heap.f[..] == f[next := f[a] + f[b]] && heap.h[..heap.n] == Insert(h[..|h| - 2], next, heap.f[..])
      && preds[..] == WithParent(old(preds[..]), a, b, next)
  {
    hide Insert;
    assert forall i :: 0 <= i < heap.n ==> heap.h[i] == heap.h[..heap.n][i];
    assert heap.h[..heap.n][..heap.n - 2] == heap.h[..heap.n - 2];
    var r1 := heap.Remove();
    var r2 := heap.Remove();
    heap.f[next] := heap.f[r1] + heap.f[r2];
    ghost var f1 := heap.f[..];
    heap.Add(next);
    assert heap.f[..] == f1;
    SetParent(preds, r1, r2, next);
  }

  /** The state that `RemoveTwo` leaves is the one after a merge. */
  lemma MergedTwo(next: nat, h: seq<nat>, f: seq<nat>, preds: seq<int>, trees: seq<Tree>, freqs: seq<nat>, goal: nat,
      h1: seq<nat>, f1: seq<nat>, preds1: seq<int>) returns (trees1: seq<Tree>)
    requires Merging(next, h, f, preds, trees, freqs, goal) && |h| > 1
    requires Within(h, |f|) && |f| == |preds| > next && Within(h[..|h| - 2], |f1|) && next < |f1|
    requires var a, b := h[|h| - 1], h[|h| - 2];
      f1 == f[next := f[a] + f[b]] && h1 == Insert(h[..|h| - 2], next, f1) && preds1 == WithParent(preds, a, b, next)
    ensures Merging(next + 1, h1, f1, preds1, trees1, freqs, goal)
  {
    hide Insert, Merging, HeapOrder, Within;
    var g, f2, p2;
    g, f2, p2, trees1 := MergeStep(next, h, f, preds, trees, freqs, goal);
  }

  /** Makes the two lightest nodes the children of the next one. */
  method MergeTwo(heap: Heap, preds: array<int>, next: nat, ghost trees: seq<Tree>, ghost freqs: seq<nat>, ghost goal: nat)
    returns (ghost trees1: seq<Tree>)
    requires heap.Valid() && heap.n > 1 && heap.h.Length == 2 * |freqs|
    requires (preds as object) != heap.f && (preds as object) != heap.h
    requires Merging(next, heap.h[..heap.n], heap.f[..], preds[..], trees, freqs, goal)
    modifies heap, heap.h, heap.f, preds
    ensures heap.Valid() && heap.n == old(heap.n) - 1
    ensures Merging(next + 1, heap.h[..heap.n], heap.f[..], preds[..], trees1, freqs, goal)
  {
    hide Merging, Insert, HeapOrder;
    ghost var h, f, p := heap.h[..heap.n], heap.f[..], preds[..];
    MergingBounds(next, h, f, p, trees, freqs, goal);
    RemoveTwo(heap, preds, next);
    trees1 := MergedTwo(next, h, f, p, trees, freqs, goal, heap.h[..heap.n], heap.f[..], preds[..]);
  }

  /** Merges until one node is left, and makes it its own parent. */
  method Merge(heap: Heap, preds: array<int>, bytes: nat, ghost freqs: seq<nat>, ghost goal: nat, ghost start: seq<Tree>)
    returns (ghost root: nat, ghost extf: nat, ghost trees: seq<Tree>)
    requires heap.Valid() && heap.h.Length == 2 * bytes && |freqs| == bytes
    requires (preds as object) != heap.f && (preds as object) != heap.h
    requires Merging(bytes, heap.h[..heap.n], heap.f[..], preds[..], start, freqs, goal)
    modifies heap, heap.h, heap.f, preds
    ensures bytes <= heap.f.Length && heap.f[..][..bytes] == freqs
    ensures Done(root, extf, heap.f[..], preds[..], trees, bytes) && Adds([root], heap.f[..], trees, freqs, goal)
  {
    hide Merging, Done, Adds;
    var next := bytes;
    trees := start;
    while heap.n > 1
      invariant heap.Valid() && Merging(next, heap.h[..heap.n], heap.f[..], preds[..], trees, freqs, goal)
      decreases heap.n
    {
      trees := MergeTwo(heap, preds, next, trees, freqs, goal);
      next := next + 1;
    }
    extf := next;
    MergingBounds(next, heap.h[..heap.n], heap.f[..], preds[..], trees, freqs, goal);
    MergingEnds(next, heap.h[..heap.n], heap.f[..], preds[..], trees, freqs, goal);
    ghost var p := preds[..];
    var r1 := heap.Remove();
    preds[r1] := r1;
    root := r1;
    assert preds[..] == p[root := root];
  }

  lemma Goal(f: seq<nat>, preds: seq<int>, start: seq<Tree>, freqs: seq<nat>) returns (goal: nat)
    requires |f| == |preds| == |start| == 2 * |freqs| && f[..|freqs|] == freqs
    requires (exists i :: 0 <= i < |freqs| && freqs[i] > 0) && forall i: nat | i < |freqs| :: start[i] == Leaf(i)
    ensures goal == Greedy(Weights(Collected(f, |freqs|), f))
    ensures Merging(|freqs|, Collected(f, |freqs|), f, preds, start, freqs, goal)
  {
    hide Merging, Collected, Greedy;
    MergingStarts(f, preds, start, freqs);
    goal := Greedy(Weights(Collected(f, |freqs|), f));
  }

  /** A symbol has a code exactly when it occurs, and its code is the path to it. */
  predicate CodeOf(c: Option<Huffcode>, freq: nat, preds: seq<int>, k: nat)
    requires k < |preds|
  {
    match c
    case None => freq == 0
    case Some(v) => freq > 0 && v.code < Pow2(v.nbits) && Bits(v.nbits, v.code) == Path(preds, k)
  }

  lemma AllEnd(root: nat, top: nat, f: seq<nat>, preds: seq<int>, trees: seq<Tree>, bytes: nat)
    requires Done(root, top, f, preds, trees, bytes)
    ensures bytes <= |f| == |preds| && forall i: nat | i < bytes && f[i] > 0 :: Ends(preds, i)
  {
    forall i: nat | i < bytes && f[i] > 0 ensures Ends(preds, i) { DoneEnds(i, root, top, f, preds, trees, bytes); }
  }

  /** Reads the code of each symbol that occurs. */
  method ReadCodes(efreqs: array<nat>, preds: array<int>, bytes: nat) returns (codes: array<Option<Huffcode>>)
    requires bytes <= efreqs.Length == preds.Length
    requires forall i: nat | i < bytes && efreqs[i] > 0 :: Ends(preds[..], i)
    ensures fresh(codes) && codes.Length == bytes
    ensures forall k: nat | k < bytes :: CodeOf(codes[k], efreqs[k], preds[..], k)
  {
    ghost var q := preds[..];
    codes := new Option<Huffcode>[bytes];
    var i := 0;
    while i < bytes
      invariant 0 <= i <= bytes && preds[..] == q
      invariant forall k: nat | k < i :: CodeOf(codes[k], efreqs[k], q, k)
    {
      if efreqs[i] == 0 {
        codes[i] := None;
      } else {
        var c := ReadCode(preds, i);
        codes[i] := Some(c);
      }
      i := i + 1;
    }
  }

  lemma CodesReadOff(codes: seq<Option<Huffcode>>, freqs: seq<nat>, preds: seq<int>)
    requires |codes| == |freqs| <= |preds| && forall k: nat | k < |freqs| :: CodeOf(codes[k], freqs[k], preds, k)
    ensures ReadOff(Words(codes), freqs, preds)
    ensures forall k: nat | k < |freqs| :: codes[k].None? <==> freqs[k] == 0
    ensures forall k: nat | k < |freqs| && codes[k].Some? :: codes[k].value.code < Pow2(codes[k].value.nbits)
  {
  }

  /** Words for the symbols that occur: a prefix code, and no prefix code makes the text shorter. */
  method CreateHuffmanCodes(freqs: array<nat>) returns (codes: array<Option<Huffcode>>)
    requires exists i :: 0 <= i < freqs.Length && freqs[i] > 0
    ensures fresh(codes) && codes.Length == freqs.Length
    ensures forall k: nat | k < freqs.Length :: codes[k].None? <==> freqs[k] == 0
    ensures forall k: nat | k < freqs.Length && codes[k].Some? :: codes[k].value.code < Pow2(codes[k].value.nbits)
    ensures PrefixCode(freqs[..], Words(codes[..])) && Shortest(freqs[..], Words(codes[..]))
  {
    hide Merging, Done, Adds, ReadOff, PrefixCode, Shortest, Collected, CodeOf, Ends;
    var bytes := freqs.Length;
    var efreqs := new nat[2 * bytes](i requires 0 <= i reads freqs => if i < bytes then freqs[i] else 0);
    var preds := new int[2 * bytes];
    var heap := new Heap(2 * bytes, efreqs);
    ghost var w, f0 := freqs[..], efreqs[..];
    assert f0[..bytes] == w;
    Collect(heap, bytes);
    ghost var start: seq<Tree> := seq(2 * bytes, i requires 0 <= i < 2 * bytes => Leaf(i));
    ghost var goal := Goal(f0, preds[..], start, w);
    ghost var root, extf, trees := Merge(heap, preds, bytes, w, goal, start);
    AllEnd(root, extf, efreqs[..], preds[..], trees, bytes);
    codes := ReadCodes(efreqs, preds, bytes);
    CodesReadOff(codes[..], w, preds[..]);
    ReadOffShortest(root, extf, f0, efreqs[..], preds[..], trees, w, Words(codes[..]));
  }
}
