/** Greedy merging is optimal among all code lengths that satisfy Kraft's inequality, hence among all prefix codes. */
module HuffmanOptimal {
  import opened Arithmetic

  // ----- sums over symbols -----

  predicate AtMost(l: seq<nat>, top: nat) { forall i :: 0 <= i < |l| ==> l[i] <= top }

  /** The share of all words of length `top` that begin with a word of one of the lengths. */
  function Share(l: seq<nat>, top: nat): nat
    requires AtMost(l, top)
  {
    if l == [] then 0 else Share(l[..|l| - 1], top) + Pow2(top - l[|l| - 1])
  }

  /** Kraft's inequality. */
  predicate Kraft(l: seq<nat>, top: nat) {
    AtMost(l, top) && Share(l, top) <= Pow2(top)
  }

  /** The cost of giving symbols of weights `w` words of lengths `l`. */
  function Dot(w: seq<nat>, l: seq<nat>): nat
    requires |w| == |l|
  {
    if w == [] then 0 else Dot(w[..|w| - 1], l[..|w| - 1]) + w[|w| - 1] * l[|w| - 1]
  }

  function Sum(l: seq<nat>): nat { if l == [] then 0 else Sum(l[..|l| - 1]) + l[|l| - 1] }

  predicate Descending(w: seq<nat>) { forall i, j :: 0 <= i < j < |w| ==> w[i] >= w[j] }

  // inserting a pair of a weight and a length at the place where the weight belongs

  function Place(w: seq<nat>, x: nat): (i: nat)
    ensures i <= |w| && (forall k :: i <= k < |w| ==> w[k] < x) && (i > 0 ==> w[i - 1] >= x)
  {
    if w == [] || w[|w| - 1] >= x then |w| else Place(w[..|w| - 1], x)
  }

  function At(s: seq<nat>, i: nat, x: nat): (r: seq<nat>)
    requires i <= |s|
    ensures |r| == |s| + 1
  {
    s[..i] + [x] + s[i..]
  }

  /** The greedy cost: merge the two smallest weights, put their sum in its place, and go on. */
  function Greedy(w: seq<nat>): nat
    decreases |w|
  {
    if |w| <= 1 then 0 else
    var n := |w|;
    var x := w[n - 1] + w[n - 2];
    x + Greedy(At(w[..n - 2], Place(w[..n - 2], x), x))
  }

  lemma PlaceDescending(w: seq<nat>, x: nat)
    requires Descending(w)
    ensures Descending(At(w, Place(w, x), x))
  {
    var i := Place(w, x);
    var r := At(w, i, x);
    forall j, k | 0 <= j < k < |r| ensures r[j] >= r[k] {
      if i > 0 && j < i <= k { assert w[j] >= w[i - 1]; }
    }
  }

  lemma DotSnoc(w: seq<nat>, l: seq<nat>, x: nat, y: nat)
    requires |w| == |l|
    ensures Dot(w + [x], l + [y]) == Dot(w, l) + x * y
  {
    assert (w + [x])[..|w|] == w && (l + [y])[..|l|] == l;
  }

  lemma ShareSnoc(l: seq<nat>, y: nat, top: nat)
    requires AtMost(l, top) && y <= top
    ensures AtMost(l + [y], top) && Share(l + [y], top) == Share(l, top) + Pow2(top - y)
  {
    assert (l + [y])[..|l|] == l;
  }

  /** Either the new element comes last, or the old last one does. */
  lemma AtSnoc(s: seq<nat>, i: nat, x: nat)
    requires i <= |s|
    ensures if i == |s| then At(s, i, x) == s + [x]
      else At(s, i, x) == At(s[..|s| - 1], i, x) + [s[|s| - 1]] && s == s[..|s| - 1] + [s[|s| - 1]]
  {
  }

  lemma {:induction false} DotAt(w: seq<nat>, l: seq<nat>, i: nat, x: nat, y: nat)
    requires |w| == |l| && i <= |w|
    ensures Dot(At(w, i, x), At(l, i, y)) == Dot(w, l) + x * y
    decreases |w|
  {
    var n := |w|;
    AtSnoc(w, i, x);
    AtSnoc(l, i, y);
    if i == n {
      DotSnoc(w, l, x, y);
    } else {
      var v, m := w[..n - 1], l[..n - 1];
      DotAt(v, m, i, x, y);
      DotSnoc(At(v, i, x), At(m, i, y), w[n - 1], l[n - 1]);
    }
  }

  lemma {:induction false} ShareAt(l: seq<nat>, i: nat, y: nat, top: nat)
    requires i <= |l| && y <= top && AtMost(l, top)
    ensures AtMost(At(l, i, y), top)
    ensures Share(At(l, i, y), top) == Share(l, top) + Pow2(top - y)
    decreases |l|
  {
    hide Pow2, At;
    var n := |l|;
    AtSnoc(l, i, y);
    if i == n {
      ShareSnoc(l, y, top);
    } else {
      ShareAt(l[..n - 1], i, y, top);
      ShareSnoc(At(l[..n - 1], i, y), l[n - 1], top);
    }
  }

  // ----- the exchange argument -----

  function Exchange(l: seq<nat>, i: nat, j: nat): (r: seq<nat>)
    requires i < |l| && j < |l|
    ensures |r| == |l|
  {
    l[i := l[j]][j := l[i]]
  }

  lemma RemoveAt(l: seq<nat>, i: nat)
    requires i < |l|
    ensures l == At(l[..i] + l[i + 1..], i, l[i])
  {
  }

  lemma ShareUpdate(l: seq<nat>, i: nat, y: nat, top: nat)
    requires i < |l| && y <= top && AtMost(l, top)
    ensures AtMost(l[i := y], top)
    ensures Share(l[i := y], top) + Pow2(top - l[i]) == Share(l, top) + Pow2(top - y)
  {
    var m := l[..i] + l[i + 1..];
    RemoveAt(l, i);
    RemoveAt(l[i := y], i);
    assert l[i := y][..i] + l[i := y][i + 1..] == m;
    assert AtMost(m, top) && l[i] <= top;
    hide Share, AtMost, At, Pow2;
    ShareAt(m, i, l[i], top);
    ShareAt(m, i, y, top);
  }

  lemma DotUpdate(w: seq<nat>, l: seq<nat>, i: nat, y: nat)
    requires |w| == |l| && i < |l|
    ensures Dot(w, l[i := y]) + w[i] * l[i] == Dot(w, l) + w[i] * y
  {
    var v, m := w[..i] + w[i + 1..], l[..i] + l[i + 1..];
    RemoveAt(w, i);
    RemoveAt(l, i);
    RemoveAt(l[i := y], i);
    assert l[i := y][..i] + l[i := y][i + 1..] == m;
    DotAt(v, m, i, w[i], l[i]);
    DotAt(v, m, i, w[i], y);
  }

  lemma {:induction false} SumUpdate(l: seq<nat>, i: nat, y: nat)
    requires i < |l|
    ensures Sum(l[i := y]) + l[i] == Sum(l) + y
    decreases |l|
  {
    var n := |l|;
    if i == n - 1 {
      assert l[i := y][..n - 1] == l[..n - 1];
    } else {
      SumUpdate(l[..n - 1], i, y);
      assert l[i := y][..n - 1] == l[..n - 1][i := y];
    }
  }

  lemma ExchangeShare(l: seq<nat>, i: nat, j: nat, top: nat)
    requires i < j < |l| && Kraft(l, top)
    ensures Kraft(Exchange(l, i, j), top) && Sum(Exchange(l, i, j)) == Sum(l)
  {
    hide Share, Sum, Pow2;
    var x, y := l[i], l[j];
    var l1 := l[i := y];
    ShareUpdate(l, i, y, top);
    ShareUpdate(l1, j, x, top);
    SumUpdate(l, i, y);
    SumUpdate(l1, j, x);
  }

  /** Giving the longer word to the lighter symbol costs no more. */
  lemma ExchangeGains(w: seq<nat>, l: seq<nat>, i: nat, j: nat)
    requires |w| == |l| && i < j < |l| && w[i] >= w[j] && l[i] >= l[j]
    ensures Dot(w, Exchange(l, i, j)) <= Dot(w, l)
  {
    var l1 := l[i := l[j]];
    DotUpdate(w, l, i, l[j]);
    DotUpdate(w, l1, j, l[i]);
    Rearrange(w[i], w[j], l[i], l[j]);
  }

  lemma Rearrange(a: nat, b: nat, x: nat, y: nat)
    requires a >= b && x >= y
    ensures a * y + b * x <= a * x + b * y
  {
    assert (a - b) * (x - y) >= 0;
    assert (a - b) * (x - y) == a * x - a * y - b * x + b * y;
  }

  /** The longest word at index `n - 1`, at no greater cost. */
  lemma LongestAt(w: seq<nat>, l: seq<nat>, n: nat, top: nat) returns (m: seq<nat>)
    requires |w| == |l| && 1 <= n <= |l| && Descending(w) && Kraft(l, top)
    ensures |m| == |l| && Kraft(m, top) && Dot(w, m) <= Dot(w, l) && Sum(m) == Sum(l)
    ensures m[n..] == l[n..] && AtMost(m[..n], m[n - 1])
    ensures forall k :: n <= k < |l| && AtMost(l[..n], l[k]) ==> AtMost(m[..n], m[k])
  {
    var i, k := 0, 1;
    while k < n
      invariant i < k <= n && AtMost(l[..k], l[i])
    {
      assert l[..k + 1] == l[..k] + [l[k]];
      if l[k] > l[i] { i := k; }
      k := k + 1;
    }
    if i < n - 1 {
      ExchangeShare(l, i, n - 1, top);
      ExchangeGains(w, l, i, n - 1);
      m := Exchange(l, i, n - 1);
      assert l[..n][i] == l[i] && l[..n][n - 1] == l[n - 1];
      forall j | 0 <= j < n ensures m[j] <= l[i] { assert l[..n][j] == l[j]; }
    } else {
      m := l;
    }
  }

  // ----- the last two words are equally long -----

  lemma {:induction false} ShareScales(l: seq<nat>, low: nat, top: nat)
    requires AtMost(l, low) && low <= top
    ensures AtMost(l, top) && Share(l, top) == Pow2(top - low) * Share(l, low)
  {
    if l != [] {
      var y := l[|l| - 1];
      ShareScales(l[..|l| - 1], low, top);
      Pow2Add(top - low, low - y);
      Distribute(Pow2(top - low), Share(l[..|l| - 1], low), Pow2(low - y));
    }
  }

  lemma Distribute(a: nat, b: nat, c: nat)
    ensures a * (b + c) == a * b + a * c
  {
  }

  lemma Parity(d: nat, u: nat, q: nat, p: nat)
    requires u > 0 && d == 2 * u && d * q + u <= d * p
    ensures d * q + d <= d * p
  {
    if q >= p {
      MulMono(p, q, d);
    } else {
      MulMono(q + 1, p, d);
      Distribute(d, q, 1);
    }
  }

  /** A word longer than all others can lose a bit. */
  lemma ShortenLast(l: seq<nat>, top: nat)
    requires |l| > 0 && Kraft(l, top) && l[|l| - 1] > 0 && AtMost(l[..|l| - 1], l[|l| - 1] - 1)
    ensures Kraft(l[|l| - 1 := l[|l| - 1] - 1], top)
  {
    var n, d := |l| - 1, l[|l| - 1];
    var m, r := l[n := d - 1], l[..n];
    ShareScales(r, d - 1, top);
    Pow2Add(top - (d - 1), d - 1);
    Parity(2 * Pow2(top - d), Pow2(top - d), Share(r, d - 1), Pow2(d - 1));
    assert m[..n] == r;
  }

  lemma AllEmpty(l: seq<nat>, top: nat)
    requires |l| >= 2 && AtMost(l, 0)
    ensures AtMost(l, top) && Share(l, top) > Pow2(top)
  {
    var r := l[..|l| - 1];
    assert Share(r, top) == Share(r[..|r| - 1], top) + Pow2(top);
    assert Share(l, top) == Share(r, top) + Pow2(top);
  }

  /** The two longest words come last; if they differ, the longer one can be shortened. */
  lemma LongestLast(w: seq<nat>, l: seq<nat>, top: nat) returns (p: seq<nat>)
    requires |w| == |l| >= 2 && Descending(w) && Kraft(l, top)
    ensures |p| == |l| && Kraft(p, top) && Dot(w, p) <= Dot(w, l) && Sum(p) == Sum(l)
    ensures p[|p| - 1] > 0 && p[|p| - 2] <= p[|p| - 1]
    ensures AtMost(p[..|p| - 1], p[|p| - 2])
  {
    var n := |w|;
    var m := LongestAt(w, l, n, top);
    assert m[..n] == m;
    p := LongestAt(w, m, n - 1, top);
    assert p[n - 1] == p[n - 1..][0] == m[n - 1..][0] == m[n - 1];
    assert AtMost(m[..n - 1], m[n - 1]) by { assert m[..n - 1] <= m; }
    assert AtMost(p[..n - 1], p[n - 1]);
    assert p[..n - 1][n - 2] == p[n - 2];
    if p[n - 1] == 0 {
      assert p == p[..n - 1] + [p[n - 1]];
      AllEmpty(p, top);
    }
  }

  lemma ShorterGains(w: seq<nat>, l: seq<nat>, i: nat, y: nat)
    requires |w| == |l| && i < |l| && y <= l[i]
    ensures Dot(w, l[i := y]) <= Dot(w, l)
  {
    DotUpdate(w, l, i, y);
    assert w[i] * l[i] == w[i] * y + w[i] * (l[i] - y);
  }

  /** The greedy cost is a lower bound for every choice of lengths that satisfies Kraft's inequality. */
  lemma {:induction false} GreedyIsLeast(w: seq<nat>, l: seq<nat>, top: nat)
    requires |w| == |l| && Descending(w) && Kraft(l, top)
    ensures Greedy(w) <= Dot(w, l)
    decreases |w|, Sum(l)
  {
    hide Dot, Share, Kraft, Sum, At, Place;
    var n := |w|;
    if n >= 2 {
      var p := LongestLast(w, l, top);
      var d := p[n - 1];
      if p[n - 2] < d {
        ShortenLast(p, top);
        SumUpdate(p, n - 1, d - 1);
        ShorterGains(w, p, n - 1, d - 1);
        GreedyIsLeast(w, p[n - 1 := d - 1], top);
      } else {
        var v, x := w[..n - 2], w[n - 1] + w[n - 2];
        var i := Place(v, x);
        MergeShare(p, i, d, top);
        MergeDot(w, p, i, d);
        PlaceDescending(v, x);
        GreedyIsLeast(At(v, i, x), At(p[..n - 2], i, d - 1), top);
      }
    }
  }

  /** Two words of one length give their share to one word that is a bit shorter. */
  lemma MergeShare(p: seq<nat>, i: nat, d: nat, top: nat)
    requires |p| >= 2 && Kraft(p, top) && d > 0 && p[|p| - 1] == p[|p| - 2] == d && i <= |p| - 2
    ensures Kraft(At(p[..|p| - 2], i, d - 1), top)
  {
    var n := |p|;
    var q := p[..n - 2];
    LastTwo(p, q, d);
    assert AtMost(q, top);
    MergedShare(q, i, d, top);
  }

  lemma MergedShare(q: seq<nat>, i: nat, d: nat, top: nat)
    requires AtMost(q, top) && 0 < d <= top && i <= |q| && Share((q + [d]) + [d], top) <= Pow2(top)
    requires AtMost((q + [d]) + [d], top)
    ensures Kraft(At(q, i, d - 1), top)
  {
    hide Share, Pow2, AtMost, At;
    TwiceShare(d, top);
    ShareSnoc(q, d, top);
    ShareSnoc(q + [d], d, top);
    ShareAt(q, i, d - 1, top);
  }

  lemma TwiceShare(d: nat, top: nat)
    requires 0 < d <= top
    ensures Pow2(top - (d - 1)) == Pow2(top - d) + Pow2(top - d)
  {
  }

  lemma LastTwo(p: seq<nat>, q: seq<nat>, d: nat)
    requires |p| >= 2 && q == p[..|p| - 2] && p[|p| - 1] == p[|p| - 2] == d
    ensures p == (q + [d]) + [d]
  {
  }

  /** Merging two symbols saves their weight. */
  lemma MergeDot(w: seq<nat>, p: seq<nat>, i: nat, d: nat)
    requires |w| == |p| >= 2 && d > 0 && p[|p| - 1] == p[|p| - 2] == d && i <= |p| - 2
    ensures var n, x := |w|, w[|w| - 1] + w[|w| - 2];
      Dot(w, p) == x + Dot(At(w[..n - 2], i, x), At(p[..n - 2], i, d - 1))
  {
    hide Dot;
    var n, a, b := |w|, w[|w| - 2], w[|w| - 1];
    var v, q := w[..n - 2], p[..n - 2];
    DotSnoc(v, q, a, d);
    DotSnoc(v + [a], q + [d], b, d);
    assert w == v + [a] + [b] && p == q + [d] + [d];
    DotAt(v, q, i, a + b, d - 1);
    assert a * d + b * d == (a + b) * (d - 1) + (a + b);
  }

  // ----- prefix codes -----

  type Word = seq<bool>

  ghost predicate PrefixFree(c: seq<Word>) {
    forall i, j :: 0 <= i < |c| && 0 <= j < |c| && i != j ==> !(c[i] <= c[j])
  }

  function Lengths(c: seq<Word>): (l: seq<nat>)
    ensures |l| == |c| && forall i :: 0 <= i < |c| ==> l[i] == |c[i]|
  {
    seq(|c|, i requires 0 <= i < |c| => |c[i]|)
  }

  /** The rests of the words that begin with a given bit. */
  function Tails(c: seq<Word>, b: bool): seq<Word> {
    if c == [] then [] else
    var t, x := Tails(c[..|c| - 1], b), c[|c| - 1];
    if x != [] && x[0] == b then t + [x[1..]] else t
  }

  lemma {:induction false} TailsFrom(c: seq<Word>, b: bool, t: Word)
    requires t in Tails(c, b)
    ensures [b] + t in c
  {
    var x := c[|c| - 1];
    if x != [] && x[0] == b && t == x[1..] {
      assert [b] + t == x;
    } else {
      TailsFrom(c[..|c| - 1], b, t);
    }
  }

  lemma {:induction false} TailsPrefixFree(c: seq<Word>, b: bool)
    requires PrefixFree(c)
    ensures PrefixFree(Tails(c, b))
  {
    if c != [] {
      var d, x := c[..|c| - 1], c[|c| - 1];
      var t := Tails(d, b);
      TailsPrefixFree(d, b);
      if x != [] && x[0] == b {
        forall i | 0 <= i < |t| ensures !(t[i] <= x[1..]) && !(x[1..] <= t[i]) {
          TailsFrom(d, b, t[i]);
          var k :| 0 <= k < |d| && d[k] == [b] + t[i];
          assert c[k] == d[k] && x == [b] + x[1..];
        }
      }
    }
  }

  lemma {:induction false} TailsShare(c: seq<Word>, top: nat)
    requires top > 0 && AtMost(Lengths(c), top) && forall i :: 0 <= i < |c| ==> c[i] != []
    ensures AtMost(Lengths(Tails(c, false)), top - 1) && AtMost(Lengths(Tails(c, true)), top - 1)
    ensures Share(Lengths(c), top)
      == Share(Lengths(Tails(c, false)), top - 1) + Share(Lengths(Tails(c, true)), top - 1)
  {
    if c != [] {
      hide Share, Pow2, Tails, Lengths, AtMost;
      var d, x := c[..|c| - 1], c[|c| - 1];
      assert c == d + [x];
      LengthsSnoc(d, x);
      AtMostSnoc(Lengths(d), |x|, top);
      TailsShare(d, top);
      ShareSnoc(Lengths(d), |x|, top);
      TailShares(d, x, top);
    }
  }

  /** One more word gives its share to the tails that begin as it does. */
  lemma TailShares(d: seq<Word>, x: Word, top: nat)
    requires x != [] && |x| <= top && AtMost(Lengths(Tails(d, false)), top - 1) && AtMost(Lengths(Tails(d, true)), top - 1)
    ensures var t, u := Lengths(Tails(d, false)), Lengths(Tails(d, true));
      var t', u' := Lengths(Tails(d + [x], false)), Lengths(Tails(d + [x], true));
      && AtMost(t', top - 1) && AtMost(u', top - 1)
      && Share(t', top - 1) + Share(u', top - 1) == Share(t, top - 1) + Share(u, top - 1) + Pow2(top - |x|)
  {
    hide Share, Pow2, Tails, Lengths, AtMost;
    TailsSnoc(d, x);
    ShareSnoc(Lengths(Tails(d, x[0])), |x| - 1, top - 1);
    assert top - 1 - (|x| - 1) == top - |x|;
  }

  lemma LengthsSnoc(c: seq<Word>, x: Word)
    ensures Lengths(c + [x]) == Lengths(c) + [|x|]
  {
  }

  lemma AtMostSnoc(l: seq<nat>, y: nat, top: nat)
    ensures AtMost(l + [y], top) <==> AtMost(l, top) && y <= top
  {
    assert (l + [y])[|l|] == y && forall i :: 0 <= i < |l| ==> (l + [y])[i] == l[i];
  }

  lemma TailsSnoc(c: seq<Word>, x: Word)
    requires x != []
    ensures Tails(c + [x], !x[0]) == Tails(c, !x[0]) && Tails(c + [x], x[0]) == Tails(c, x[0]) + [x[1..]]
    ensures Lengths(Tails(c + [x], x[0])) == Lengths(Tails(c, x[0])) + [|x| - 1]
  {
    assert (c + [x])[..|c|] == c;
    LengthsSnoc(Tails(c, x[0]), x[1..]);
  }

  /** The words of a prefix code satisfy Kraft's inequality. */
  lemma {:induction false} PrefixFreeKraft(c: seq<Word>, top: nat)
    requires PrefixFree(c) && AtMost(Lengths(c), top)
    ensures Kraft(Lengths(c), top)
    decreases top
  {
    if i: nat :| i < |c| && c[i] == [] {
      EmptyWordAlone(c, i);
      assert Lengths(c)[..0] == [];
    } else if c != [] {
      assert 0 < Lengths(c)[0] <= top;
      TailsShare(c, top);
      TailsPrefixFree(c, false);
      TailsPrefixFree(c, true);
      PrefixFreeKraft(Tails(c, false), top - 1);
      PrefixFreeKraft(Tails(c, true), top - 1);
    }
  }

  lemma NotBelow(c: seq<Word>, i: nat, j: nat)
    requires PrefixFree(c) && i < |c| && j < |c| && i != j
    ensures !(c[i] <= c[j])
  {
  }

  lemma EmptyWordAlone(c: seq<Word>, i: nat)
    requires PrefixFree(c) && i < |c| && c[i] == []
    ensures |c| == 1
  {
    if |c| > 1 {
      NotBelow(c, i, if i == 0 then 1 else 0);
    }
  }
}
