/** The enumerators of permutations.c that swap in place: the recursive one and its flattened form. */
module Permutations {
  import opened HeapEnumeration

  /** A callback that keeps what it was called with. */
  class Visitor<T> {
    var log: seq<seq<T>>

    constructor ()
      ensures log == []
    {
      log := [];
    }

    method Call(x: array<T>, nn: nat)
      requires nn <= x.Length
      modifies this
      ensures log == old(log) + [x[..nn]]
    {
      log := log + [x[..nn]];
    }
  }

  // ----- what remains to be visited -----

  /** The visits that remain for the first `n` elements when the recursive call of round `c` has just come back. */
  function After<T>(n: nat, s: seq<T>, c: nat): (r: seq<seq<T>>)
    requires |s| == n >= 2 && c < n
    decreases n - c
  {
    if c == n - 1 then [] else
    var t := Swap(s, n - 1, Partner(n, c));
    Round(n, t) + After(n, Inner(n, t), c + 1)
  }

  /** The arrangement they end with. */
  function FinalAfter<T>(n: nat, s: seq<T>, c: nat): (r: seq<T>)
    requires |s| == n >= 2 && c < n
    ensures |r| == n
    decreases n - c
  {
    if c == n - 1 then s else FinalAfter(n, Inner(n, Swap(s, n - 1, Partner(n, c))), c + 1)
  }

  lemma {:induction false} AfterStage<T>(n: nat, a: seq<T>, c: nat)
    requires |a| == n >= 2 && c < n
    ensures VisitsFrom(n, a, c) == Round(n, Stage(n, a, c)) + After(n, Inner(n, Stage(n, a, c)), c)
    ensures FinalAfter(n, Inner(n, Stage(n, a, c)), c) == Net(n, a)
    decreases n - c
  {
    if c < n - 1 {
      AfterStage(n, a, c + 1);
      StageStep(n, a, c + 1);
      hide Round, Inner, Swap, Stage;
    }
  }

  lemma WithConcat<T>(p: seq<seq<T>>, q: seq<seq<T>>, rest: seq<T>)
    ensures With(p + q, rest) == With(p, rest) + With(q, rest)
  {
  }

  lemma WithWith<T>(p: seq<seq<T>>, x: seq<T>, y: seq<T>)
    ensures With(With(p, x), y) == With(p, x + y)
  {
    forall i | 0 <= i < |p| ensures (p[i] + x) + y == p[i] + (x + y) {}
  }

  // ----- the recursion -----

  /** Boothroyd's method on the first `n` elements: visits all their further arrangements. */
  method Boothroyd<T>(x: array<T>, n: nat, nn: nat, callback: Visitor?<T>)
    requires n <= nn <= x.Length
    modifies x, callback
    ensures x[..n] == Net(n, old(x[..n])) && x[n..] == old(x[n..])
    ensures callback != null ==>
      callback.log == old(callback.log) + With(Visits(n, old(x[..n]))[1..], old(x[n..nn]))
    decreases n, 1
  {
    hide Net, Round, Inner, With;
    var c := 0;
    ghost var a, rest := x[..n], x[n..nn];
    ghost var total := (if callback != null then callback.log else []) + With(Visits(n, a)[1..], rest);
    while true
      invariant n >= 2 ==> c < n && x[..n] == Stage(n, a, c)
      invariant n < 2 ==> c == 0 && x[..n] == a
      invariant x[n..] == old(x[n..]) && x[n..nn] == rest
      invariant callback != null ==>
        total == callback.log + if n < 2 then [] else With(VisitsFrom(n, a, c)[1..], rest)
      decreases n - c
    {
      ghost var s, log := x[..n], if callback != null then callback.log else [];
      Recurse(x, n, nn, callback);
      if c + 1 >= n {
        NetIs(n, a);
        if n >= 2 { assert VisitsFrom(n, a, c) == Round(n, s); }
        return;
      }
      var i := if n % 2 == 1 then 0 else c;
      c := c + 1;
      SwapAndVisit(x, n, i, nn, callback);
      NextRound(n, a, c - 1, rest, log, total);
    }
  }

  lemma NetIs<T>(n: nat, a: seq<T>)
    requires |a| == n
    ensures Net(n, a) == if n < 2 then a else Inner(n, Stage(n, a, n - 1))
  {
  }

  /** The recursive call, if there is one. */
  method Recurse<T>(x: array<T>, n: nat, nn: nat, callback: Visitor?<T>)
    requires n <= nn <= x.Length
    modifies x, callback
    ensures x[n..] == old(x[n..]) && x[n..nn] == old(x[n..nn])
    ensures n >= 2 ==> x[..n] == Inner(n, old(x[..n]))
    ensures n < 2 ==> x[..n] == old(x[..n])
    ensures callback != null ==>
      callback.log == old(callback.log) + if n < 2 then [] else With(Round(n, old(x[..n]))[1..], old(x[n..nn]))
    decreases n, 0
  {
    if n > 2 {
      ghost var w := x[..];
      LastOff(w, n, nn);
      InRound(n, w[..n], w[n..nn]);
      Boothroyd(x, n - 1, nn, callback);
      hide Round, Visits, With, Net;
      Rejoined(w, x[..], n, nn);
    }
  }

  lemma LastOff<T>(w: seq<T>, n: nat, nn: nat)
    requires 1 <= n <= nn <= |w|
    ensures w[..n][..n - 1] == w[..n - 1] && w[..n][n - 1] == w[n - 1] && w[n - 1..nn] == [w[n - 1]] + w[n..nn]
  {
  }

  lemma Rejoined<T>(w: seq<T>, z: seq<T>, n: nat, nn: nat)
    requires |z| == |w| && 1 <= n <= nn <= |w| && z[n - 1..] == w[n - 1..]
    ensures z[..n] == z[..n - 1] + [w[n - 1]] && z[n..] == w[n..] && z[n..nn] == w[n..nn]
  {
    assert forall k :: n - 1 <= k < |w| ==> z[k] == z[n - 1..][k - (n - 1)] == w[n - 1..][k - (n - 1)] == w[k];
  }

  method SwapAndVisit<T>(x: array<T>, n: nat, i: nat, nn: nat, callback: Visitor?<T>)
    requires i < n <= nn <= x.Length
    modifies x, callback
    ensures x[..n] == Swap(old(x[..n]), n - 1, i) && x[n..] == old(x[n..]) && x[n..nn] == old(x[n..nn])
    ensures callback != null ==> callback.log == old(callback.log) + [x[..n] + old(x[n..nn])]
  {
    x[n - 1], x[i] := x[i], x[n - 1];
    assert x[n..] == old(x[n..]) && x[n..nn] == old(x[n..nn]);
    assert x[..nn] == x[..n] + x[n..nn];
    if callback != null { callback.Call(x, nn); }
  }

  lemma InRound<T>(n: nat, s: seq<T>, rest: seq<T>)
    requires |s| == n >= 2
    ensures With(Visits(n - 1, s[..n - 1])[1..], [s[n - 1]] + rest) == With(Round(n, s)[1..], rest)
  {
    WithWith(Visits(n - 1, s[..n - 1])[1..], [s[n - 1]], rest);
  }

  lemma NextRound<T>(n: nat, a: seq<T>, c: nat, rest: seq<T>, log: seq<seq<T>>, total: seq<seq<T>>)
    requires |a| == n >= 2 && c < n - 1
    ensures total == log + With(VisitsFrom(n, a, c)[1..], rest) ==>
      total == log + With(Round(n, Stage(n, a, c))[1..], rest) + [Stage(n, a, c + 1) + rest]
        + With(VisitsFrom(n, a, c + 1)[1..], rest)
  {
    var r, v := Round(n, Stage(n, a, c)), VisitsFrom(n, a, c + 1);
    assert VisitsFrom(n, a, c)[1..] == r[1..] + ([v[0]] + v[1..]);
    WithConcat(r[1..], [v[0]] + v[1..], rest);
    WithConcat([v[0]], v[1..], rest);
    assert With([v[0]], rest) == [v[0] + rest];
  }

  /** Entry to the recursion: on distinct elements, every permutation is visited once. */
  method Perm2<T>(x: array<T>, n: nat, callback: Visitor?<T>)
    requires n <= x.Length
    modifies x, callback
    ensures x[..n] == Net(n, old(x[..n])) && x[n..] == old(x[n..])
    ensures callback != null ==> callback.log == old(callback.log) + Visits(n, old(x[..n]))
  {
    ghost var a := x[..n];
    if callback != null { callback.Call(x, n); }
    Boothroyd(x, n, n, callback);
    WithNothing(Visits(n, a)[1..]);
    assert x.Length >= n && old(x[n..n]) == [];
    Associative(old(if callback != null then callback.log else []), [a], Visits(n, a)[1..]);
    assert Visits(n, a) == [a] + Visits(n, a)[1..];
  }

  lemma WithNothing<T>(p: seq<seq<T>>)
    ensures With(p, []) == p
  {
    assert forall i :: 0 <= i < |p| ==> p[i] + [] == p[i];
  }

  // ----- the recursion flattened into counters -----

  ghost predicate Counters(cs: seq<nat>, n: nat) {
    |cs| == n && forall d :: 1 <= d < n ==> cs[d] <= d
  }

  /** The visits that remain when level `l` has just finished and the levels above are at the counts `cs`. */
  ghost function Rest<T>(l: nat, x: seq<T>, cs: seq<nat>): seq<seq<T>>
    requires 1 <= l <= |x| && Counters(cs, |x|)
    decreases |x| - l
  {
    if l == |x| then [] else
    With(After(l + 1, x[..l + 1], cs[l]), x[l + 1..])
      + Rest(l + 1, FinalAfter(l + 1, x[..l + 1], cs[l]) + x[l + 1..], cs)
  }

  lemma {:induction false} RestDepends<T>(l: nat, x: seq<T>, cs: seq<nat>, cs': seq<nat>)
    requires 1 <= l <= |x| && Counters(cs, |x|) && Counters(cs', |x|) && cs[l..] == cs'[l..]
    ensures Rest(l, x, cs) == Rest(l, x, cs')
    decreases |x| - l
  {
    if l < |x| {
      assert cs[l] == cs[l..][0] == cs'[l];
      assert cs[l + 1..] == cs[l..][1..] == cs'[l + 1..];
      RestDepends(l + 1, FinalAfter(l + 1, x[..l + 1], cs[l]) + x[l + 1..], cs, cs');
    }
  }

  /** Counters at zero mean that the levels below are about to start anew. */
  lemma {:induction false} Restart<T>(k: nat, x: seq<T>, cs: seq<nat>)
    requires 1 <= k <= |x| && Counters(cs, |x|) && forall d :: 1 <= d < k ==> cs[d] == 0
    ensures Rest(1, x, cs) == With(Visits(k, x[..k])[1..], x[k..]) + Rest(k, Net(k, x[..k]) + x[k..], cs)
    decreases k
  {
    hide Rest, With, Visits, Net;
    if k == 1 {
      OneVisit(x[..1], x[1..]);
      assert x[..1] + x[1..] == x;
    } else {
      Restart(k - 1, x, cs);
      RestartStep(k, x, cs);
    }
  }

  lemma OneVisit<T>(a: seq<T>, rest: seq<T>)
    requires |a| == 1
    ensures Net(1, a) == a && With(Visits(1, a)[1..], rest) == []
  {
    assert Visits(1, a) == [a];
  }

  lemma RestartStep<T>(k: nat, x: seq<T>, cs: seq<nat>)
    requires 2 <= k <= |x| && Counters(cs, |x|) && cs[k - 1] == 0
    ensures With(Visits(k - 1, x[..k - 1])[1..], x[k - 1..]) + Rest(k - 1, Net(k - 1, x[..k - 1]) + x[k - 1..], cs)
      == With(Visits(k, x[..k])[1..], x[k..]) + Rest(k, Net(k, x[..k]) + x[k..], cs)
  {
    var a, rest := x[..k], x[k..];
    var y := Net(k - 1, x[..k - 1]) + x[k - 1..];
    assert x[..k - 1] == a[..k - 1] && x[k - 1..] == [a[k - 1]] + rest;
    assert y[..k] == Inner(k, a) && y[k..] == rest;
    InRound(k, a, rest);
    AfterStage(k, a, 0);
    assert Stage(k, a, 0) == a && Visits(k, a) == VisitsFrom(k, a, 0);
    hide Round, After, Inner, Visits, VisitsFrom, With, Net, Stage;
    var r, f := Round(k, a), After(k, Inner(k, a), 0);
    var tail := Rest(k, Net(k, a) + rest, cs);
    assert Rest(k - 1, y, cs) == With(f, rest) + tail;
    TailConcat(r, f, rest);
    assert Visits(k, a) == r + f;
    Associative(With(r[1..], rest), With(f, rest), tail);
  }

  lemma TailConcat<T>(r: seq<seq<T>>, f: seq<seq<T>>, rest: seq<T>)
    requires r != []
    ensures With((r + f)[1..], rest) == With(r[1..], rest) + With(f, rest)
  {
    assert (r + f)[1..] == r[1..] + f;
    WithConcat(r[1..], f, rest);
  }

  /** A level whose counter has run out has nothing left to visit. */
  lemma RanOut<T>(d: nat, x: seq<T>, cs: seq<nat>)
    requires 1 <= d < |x| && Counters(cs, |x|) && cs[d] == d
    ensures Rest(d, x, cs) == Rest(d + 1, x, cs)
  {
    assert x[..d + 1] + x[d + 1..] == x;
  }

  lemma AtTheStart<T>(n: nat, a: seq<T>, cs: seq<nat>)
    requires |a| == n >= 2 && Counters(cs, n) && forall d :: 1 <= d < n ==> cs[d] == 0
    ensures Visits(n, a) == [a] + Rest(1, a, cs)
  {
    Restart(n, a, cs);
    assert a[..n] == a && a[n..] == [];
    WithNothing(Visits(n, a)[1..]);
    assert Visits(n, a) == [a] + Visits(n, a)[1..];
  }

  /** One swap at level `d`: it is the next visit, and afterwards the levels below start anew. */
  lemma NextSwap<T>(d: nat, x: seq<T>, cs: seq<nat>, x': seq<T>, cs': seq<nat>)
    requires 1 <= d < |x| && Counters(cs, |x|) && cs[d] < d && Counters(cs', |x|)
    requires forall j :: 1 <= j < d ==> cs'[j] == 0
    requires x' == Swap(x, d, Partner(d + 1, cs[d]))
    requires cs'[d] == cs[d] + 1 && cs'[d + 1..] == cs[d + 1..]
    ensures Rest(d, x, cs) == [x'] + Rest(1, x', cs')
  {
    var n, rest := d + 1, x[d + 1..];
    var t := Swap(x[..n], d, Partner(n, cs[d]));
    assert x' == t + rest;
    var u, k := Inner(n, t), cs[d] + 1;
    hide Rest, With, After, FinalAfter, Round, Visits, Net, Inner, Swap;
    var later := With(After(n, u, k), rest) + Rest(n, FinalAfter(n, u, k) + rest, cs);
    LevelSwaps(d, x, cs, t, rest);
    RestartBelow(d, t, rest, cs, cs');
    Associative([x'], With(Round(n, t)[1..], rest), later);
  }

  lemma RestartBelow<T>(d: nat, t: seq<T>, rest: seq<T>, cs: seq<nat>, cs': seq<nat>)
    requires |t| == d + 1 >= 2 && Counters(cs, d + 1 + |rest|) && Counters(cs', d + 1 + |rest|) && cs[d] < d
    requires forall j :: 1 <= j < d ==> cs'[j] == 0
    requires cs'[d] == cs[d] + 1 && cs'[d + 1..] == cs[d + 1..]
    ensures var n, u, k := d + 1, Inner(d + 1, t), cs[d] + 1;
      Rest(1, t + rest, cs') == With(Round(n, t)[1..], rest)
        + (With(After(n, u, k), rest) + Rest(n, FinalAfter(n, u, k) + rest, cs))
  {
    hide With, After, FinalAfter, Visits, Round, Net;
    var n, x' := d + 1, t + rest;
    var u, k := Inner(n, t), cs[d] + 1;
    Restart(d, x', cs');
    SplitLast(t, rest, d);
    InRound(n, t, rest);
    var y := Net(d, x'[..d]) + x'[d..];
    InnerThenRest(t, rest, d);
    var z := FinalAfter(n, u, k) + rest;
    assert Rest(d, y, cs') == With(After(n, u, k), rest) + Rest(n, z, cs');
    RestDepends(n, z, cs, cs');
  }

  lemma SplitLast<T>(t: seq<T>, rest: seq<T>, d: nat)
    requires |t| == d + 1
    ensures (t + rest)[..d] == t[..d] && (t + rest)[d..] == [t[d]] + rest
  {
  }

  lemma InnerThenRest<T>(t: seq<T>, rest: seq<T>, d: nat)
    requires |t| == d + 1 >= 2
    ensures var y := Net(d, t[..d]) + ([t[d]] + rest); y[..d + 1] == Inner(d + 1, t) && y[d + 1..] == rest
  {
  }

  lemma Associative<T>(a: seq<T>, b: seq<T>, c: seq<T>)
    ensures a + b + c == a + (b + c)
  {
  }

  lemma LevelSwaps<T>(d: nat, x: seq<T>, cs: seq<nat>, t: seq<T>, rest: seq<T>)
    requires 1 <= d < |x| && Counters(cs, |x|) && cs[d] < d && rest == x[d + 1..]
    requires t == Swap(x[..d + 1], d, Partner(d + 1, cs[d]))
    ensures var u, k := Inner(d + 1, t), cs[d] + 1;
      Rest(d, x, cs) == [t + rest] + With(Round(d + 1, t)[1..], rest)
        + (With(After(d + 1, u, k), rest) + Rest(d + 1, FinalAfter(d + 1, u, k) + rest, cs))
  {
    var n, u, k := d + 1, Inner(d + 1, t), cs[d] + 1;
    var r, f, tail := Round(n, t), After(n, u, k), Rest(n, FinalAfter(n, u, k) + rest, cs);
    assert Rest(d, x, cs) == With(r + f, rest) + tail;
    WithConcat(r, f, rest);
    WithHead(r, rest);
    Associative(With(r, rest), With(f, rest), tail);
  }

  lemma WithHead<T>(r: seq<seq<T>>, rest: seq<T>)
    requires r != []
    ensures With(r, rest) == [r[0] + rest] + With(r[1..], rest)
  {
  }

  method ResetBelow(c0: seq<nat>, d0: nat) returns (c: seq<nat>)
    requires 1 <= d0 < |c0|
    ensures c == Reset(c0, d0)
  {
    c := c0;
    var d := d0;
    while d > 1
      invariant 1 <= d <= d0 && |c| == |c0| && Reset(c, d) == Reset(c0, d0)
    {
      d := d - 1;
      c := c[d := 0];
    }
    assert Reset(c, 1) == c;
  }

  /** The lowest level whose counter has not run out. */
  method LowestLevel<T>(c: seq<nat>, n: nat, ghost x: seq<T>) returns (d: nat)
    requires 2 <= n == |x| && Counters(c, n)
    ensures 1 <= d <= n && Rest(1, x, c) == Rest(d, x, c) && (d < n ==> c[d] < d)
  {
    d := 1;
    while c[d] >= d
      invariant 1 <= d < n && Rest(1, x, c) == Rest(d, x, c)
      decreases n - d
    {
      RanOut(d, x, c);
      d := d + 1;
      if d >= n { return; }
    }
  }

  /** The same visits in the same order as the recursion. */
  method Perm3<T>(x: array<T>, n: nat, callback: Visitor?<T>)
    requires 2 <= n <= x.Length
    modifies x, callback
    ensures callback != null ==> callback.log == old(callback.log) + Visits(n, old(x[..n]))
    ensures x[..n] == Visits(n, old(x[..n]))[|Visits(n, old(x[..n]))| - 1] && x[n..] == old(x[n..])
  {
    hide Visits, Rest;
    var c: seq<nat> := seq(n, _ => 0);
    ghost var a, visited := x[..n], [x[..n]];
    if callback != null { callback.Call(x, n); }
    var d := 1;
    AtTheStart(n, a, c);
    assert Reset(c, 1) == c;
    while true
      invariant 1 <= d < n && Counters(c, n)
      invariant Remains(n, a, visited, x[..n], Reset(c, d)) && x[n..] == old(x[n..])
      invariant callback != null ==> callback.log == old(callback.log) + visited
      invariant |visited| > 0 && visited[|visited| - 1] == x[..n]
      decreases |Visits(n, a)| - |visited|
    {
      ghost var before := x[..n];
      c := ResetBelow(c, d);
      d := LowestLevel(c, n, before);
      if d >= n {
        NothingAbove(before, c);
        assert visited + [] == visited == Visits(n, a);
        return;
      }
      SwapAndCall(x, if d % 2 == 1 then c[d] else 0, d, n, callback);
      ghost var after := x[..n];
      LevelCounted(n, a, visited, d, before, c, after);
      c := c[d := c[d] + 1];
      visited := visited + [after];
    }
  }

  /** All visits are those made and those that remain. */
  ghost predicate Remains<T>(n: nat, a: seq<T>, visited: seq<seq<T>>, x: seq<T>, cs: seq<nat>)
    requires |a| == n
  {
    |x| == n >= 1 && Counters(cs, n) && Visits(n, a) == visited + Rest(1, x, cs)
  }

  lemma NothingAbove<T>(x: seq<T>, cs: seq<nat>)
    requires 1 <= |x| && Counters(cs, |x|)
    ensures Rest(|x|, x, cs) == []
  {
  }

  lemma LevelCounted<T>(n: nat, a: seq<T>, visited: seq<seq<T>>, d: nat, x: seq<T>, cs: seq<nat>, x': seq<T>)
    requires |a| == n == |x| && 1 <= d < n && Counters(cs, n) && cs[d] < d
    requires x' == Swap(x, d, if d % 2 == 1 then cs[d] else 0)
    requires Visits(n, a) == visited + Rest(d, x, cs)
    ensures Counters(cs[d := cs[d] + 1], n) && |visited| < |Visits(n, a)|
    ensures Remains(n, a, visited + [x'], x', Reset(cs[d := cs[d] + 1], d))
  {
    hide Visits, Rest;
    var cs1 := cs[d := cs[d] + 1];
    var cs' := Reset(cs1, d);
    assert Counters(cs1, n) && Counters(cs', n) && cs'[d + 1..] == cs[d + 1..];
    NextSwap(d, x, cs, x', cs');
    Associative(visited, [x'], Rest(1, x', cs'));
  }

  method SwapAndCall<T>(x: array<T>, i: nat, d: nat, n: nat, callback: Visitor?<T>)
    requires i < n && d < n <= x.Length
    modifies x, callback
    ensures x[..n] == Swap(old(x[..n]), d, i) && x[n..] == old(x[n..])
    ensures callback != null ==> callback.log == old(callback.log) + [x[..n]]
  {
    x[i], x[d] := x[d], x[i];
    if callback != null { callback.Call(x, n); }
  }

  /** The counters with those below level `d` back at zero. */
  function Reset(cs: seq<nat>, d: nat): (r: seq<nat>)
    ensures |r| == |cs|
  {
    seq(|cs|, j requires 0 <= j < |cs| => if 1 <= j < d then 0 else cs[j])
  }
}
