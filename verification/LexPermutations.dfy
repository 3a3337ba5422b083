/** The next permutation in lexicographic order, and the enumeration built on it. */
module LexPermutations {
  import opened HeapEnumeration
  import opened Permutations

  ghost predicate Less(a: seq<int>, b: seq<int>)
    requires |a| == |b|
  {
    exists i :: LessAt(a, b, i)
  }

  predicate LessAt(a: seq<int>, b: seq<int>, i: int)
    requires |a| == |b|
  {
    0 <= i < |a| && a[..i] == b[..i] && a[i] < b[i]
  }

  predicate Increasing(a: seq<int>) { forall i, j :: 0 <= i < j < |a| ==> a[i] <= a[j] }

  predicate Decreasing(a: seq<int>) { forall i, j :: 0 <= i < j < |a| ==> a[i] >= a[j] }

  /** `b` is the first rearrangement of `a` after `a`. */
  ghost predicate IsSuccessor(a: seq<int>, b: seq<int>) {
    Perm(a, b) && Less(a, b) && forall p :: Perm(a, p) && Less(a, p) ==> p == b || Less(b, p)
  }

  // ----- the order -----

  lemma FirstDifference(a: seq<int>, b: seq<int>) returns (i: nat)
    requires |a| == |b| && a != b
    ensures i < |a| && a[..i] == b[..i] && a[i] != b[i]
  {
    i := 0;
    while a[i] == b[i]
      invariant i < |a| && a[..i] == b[..i]
      decreases |a| - i
    {
      assert a[..i + 1] == a[..i] + [a[i]] && b[..i + 1] == b[..i] + [b[i]];
      i := i + 1;
      assert a[..|a|] == a && b[..|b|] == b;
    }
  }

  lemma LessTransitive(a: seq<int>, b: seq<int>, c: seq<int>)
    requires |a| == |b| == |c| && Less(a, b) && Less(b, c)
    ensures Less(a, c)
  {
    var i :| LessAt(a, b, i);
    var j :| LessAt(b, c, j);
    var k := if i < j then i else j;
    assert a[..k] == b[..k] by { assert a[..k] == a[..i][..k]; }
    assert b[..k] == c[..k] by { assert b[..k] == b[..j][..k]; }
    if i < j { assert b[..j][i] == c[..j][i]; }
    if j < i { assert a[..i][j] == b[..i][j]; }
    assert LessAt(a, c, k);
  }

  lemma LessIrreflexive(a: seq<int>)
    ensures !Less(a, a)
  {
  }

  /** What follows a common prefix decides. */
  lemma LessAfter(p: seq<int>, a: seq<int>, b: seq<int>)
    requires |a| == |b| && Less(a, b)
    ensures Less(p + a, p + b)
  {
    var i :| LessAt(a, b, i);
    assert (p + a)[..|p| + i] == p + a[..i] && (p + b)[..|p| + i] == p + b[..i];
    assert LessAt(p + a, p + b, |p| + i);
  }

  lemma PermSuffix(a: seq<int>, b: seq<int>, i: nat)
    requires Perm(a, b) && i <= |a| && a[..i] == b[..i]
    ensures Perm(a[i..], b[i..])
  {
    assert a == a[..i] + a[i..] && b == b[..i] + b[i..];
    assert multiset(a[i..]) == multiset(a) - multiset(a[..i]);
    assert multiset(b[i..]) == multiset(b) - multiset(b[..i]);
  }

  lemma PermMember(a: seq<int>, b: seq<int>, i: nat) returns (j: nat)
    requires Perm(a, b) && i < |b|
    ensures j < |a| && a[j] == b[i]
  {
    assert b[i] in multiset(a);
    j :| 0 <= j < |a| && a[j] == b[i];
  }

  /** The increasing arrangement comes first. */
  lemma IncreasingLeast(a: seq<int>, b: seq<int>)
    requires Increasing(a) && Perm(a, b)
    ensures a == b || Less(a, b)
  {
    if a != b {
      var i := FirstDifference(a, b);
      PermSuffix(a, b, i);
      var j := PermMember(a[i..], b[i..], 0);
      assert a[i] <= a[i..][j];
      assert LessAt(a, b, i);
    }
  }

  lemma FirstOfDecreasing(a: seq<int>, b: seq<int>)
    requires Decreasing(a) && Perm(a, b) && a != []
    ensures b[0] <= a[0]
  {
    var j := PermMember(a, b, 0);
  }

  /** The decreasing arrangement comes last. */
  lemma DecreasingGreatest(a: seq<int>, b: seq<int>)
    requires Decreasing(a) && Perm(a, b)
    ensures !Less(a, b)
  {
    if Less(a, b) {
      var i :| LessAt(a, b, i);
      PermSuffix(a, b, i);
      FirstOfDecreasing(a[i..], b[i..]);
    }
  }

  // ----- the successor -----

  /** Why the algorithm's result is the successor: `k` is the last ascent, `l` the last element above `a[k]`. */
  lemma SuccessorIs(a: seq<int>, b: seq<int>, k: nat, l: nat)
    requires |a| == |b| && k < l < |a| && Decreasing(a[k + 1..])
    requires a[k] < a[l] && forall j :: l < j < |a| ==> a[j] <= a[k]
    requires Perm(a, b) && b[..k] == a[..k] && b[k] == a[l] && Increasing(b[k + 1..])
    ensures IsSuccessor(a, b)
  {
    assert LessAt(a, b, k);
    forall p | Perm(a, p) && Less(a, p) ensures p == b || Less(b, p) {
      var i :| LessAt(a, p, i);
      if i < k {
        assert b[..i] == b[..k][..i] && b[i] == b[..k][i] == a[i];
        assert LessAt(b, p, i);
      } else if i > k {
        PermSuffix(a, p, i);
        assert a[i..] == a[k + 1..][i - (k + 1)..];
        FirstOfDecreasing(a[i..], p[i..]);
      } else {
        NotBefore(a, b, p, k, l);
      }
    }
  }

  /** A later permutation that agrees up to the pivot has at least the successor's element there. */
  lemma NotBefore(a: seq<int>, b: seq<int>, p: seq<int>, k: nat, l: nat)
    requires |a| == |b| && k < l < |a| && Decreasing(a[k + 1..])
    requires a[k] < a[l] && forall j :: l < j < |a| ==> a[j] <= a[k]
    requires Perm(a, b) && b[..k] == a[..k] && b[k] == a[l] && Increasing(b[k + 1..])
    requires Perm(a, p) && LessAt(a, p, k)
    ensures p == b || Less(b, p)
  {
    PermSuffix(a, p, k);
    var j := PermMember(a[k..], p[k..], 0);
    assert a[k + j] == p[k] && k + j <= l;
    if k + j < l { assert a[k + 1..][j - 1] >= a[k + 1..][l - (k + 1)]; }
    if p[k] == b[k] {
      SameUpTo(b, p, k);
    } else {
      assert LessAt(b, p, k);
    }
  }

  lemma SameUpTo(b: seq<int>, p: seq<int>, k: nat)
    requires Perm(b, p) && k < |b| && b[..k] == p[..k] && b[k] == p[k] && Increasing(b[k + 1..])
    ensures p == b || Less(b, p)
  {
    var c := b[..k + 1];
    assert p[..k + 1] == p[..k] + [p[k]] == c;
    PermSuffix(b, p, k + 1);
    IncreasingLeast(b[k + 1..], p[k + 1..]);
    assert b == c + b[k + 1..] && p == c + p[k + 1..];
    if b[k + 1..] != p[k + 1..] { LessAfter(c, b[k + 1..], p[k + 1..]); }
  }

  // ----- the algorithm -----

  /** Exchanging the pivot with the last element above it leaves the elements behind decreasing. */
  lemma StaysDecreasing(a: seq<int>, k: nat, l: nat)
    requires k < l < |a| && Decreasing(a[k + 1..]) && a[k] < a[l] && forall j :: l < j < |a| ==> a[j] <= a[k]
    ensures Decreasing(Swap(a, k, l)[k + 1..])
  {
    var b := Swap(a, k, l);
    forall i, j | k + 1 <= i < j < |a| ensures b[i] >= b[j] {
      assert a[k + 1..][i - (k + 1)] >= a[k + 1..][j - (k + 1)];
      if l < j { assert a[k + 1..][l - (k + 1)] >= a[k + 1..][j - (k + 1)]; }
      if i < l { assert a[k + 1..][i - (k + 1)] >= a[k + 1..][l - (k + 1)]; }
    }
  }

  lemma DecreasingCons(a: seq<int>, i: nat, n: nat)
    requires i + 1 < n <= |a| && a[i] >= a[i + 1] && Decreasing(a[i + 1..n])
    ensures Decreasing(a[i..n])
  {
    assert forall j :: i + 1 <= j < n ==> a[j] == a[i + 1..n][j - (i + 1)];
  }

  /** The last index from which on the elements decrease. */
  method LastAscent(a: array<int>, n: nat) returns (k: nat)
    requires 1 <= n <= a.Length
    ensures k < n && Decreasing(a[..n][k..]) && (k > 0 ==> a[k - 1] < a[k])
  {
    k := n - 1;
    while k > 0 && a[k - 1] >= a[k]
      invariant 0 <= k < n && Decreasing(a[..n][k..n])
    {
      DecreasingCons(a[..n], k - 1, n);
      k := k - 1;
    }
    assert a[..n][k..n] == a[..n][k..];
  }

  /** Steps to the next permutation of the first `n` elements; stays at the last one and says so. */
  method NextLexPerm(a: array<int>, n: nat) returns (r: bool)
    requires 1 <= n <= a.Length
    modifies a
    ensures r <==> !Decreasing(old(a[..n]))
    ensures if r then IsSuccessor(old(a[..n]), a[..n]) else a[..n] == old(a[..n])
    ensures a[n..] == old(a[n..])
  {
    var k := LastAscent(a, n);
    ghost var before := a[..n];
    if k == 0 {
      assert before[0..] == before;
      return false;
    }
    k := k - 1;
    var l := n - 1;
    while a[l] <= a[k]
      invariant k < l < n && forall j :: l < j < n ==> a[j] <= a[k]
      decreases l
    {
      l := l - 1;
    }
    a[k], a[l] := a[l], a[k];
    ghost var swapped := a[..n];
    assert swapped == Swap(before, k, l);
    StaysDecreasing(before, k, l);
    ReverseSuffix(a, k + 1, n);
    Rearranged(before, a[..n], k, l);
    return true;
  }

  lemma Rearranged(a: seq<int>, b: seq<int>, k: nat, l: nat)
    requires |a| == |b| && k < l < |a| && Decreasing(a[k + 1..])
    requires a[k] < a[l] && forall j :: l < j < |a| ==> a[j] <= a[k]
    requires var s := Swap(a, k, l); b == s[..k + 1] + Reverse(s[k + 1..]) && Decreasing(s[k + 1..])
    ensures IsSuccessor(a, b) && !Decreasing(a)
  {
    var s := Swap(a, k, l);
    SwapPerm(a, k, l);
    ReversePerm(s[k + 1..]);
    assert s == s[..k + 1] + s[k + 1..];
    assert b[k + 1..] == Reverse(s[k + 1..]);
    assert b[..k] == s[..k] == a[..k];
    SuccessorIs(a, b, k, l);
    if Decreasing(a) { DecreasingGreatest(a, b); }
  }

  function Reverse(s: seq<int>): (r: seq<int>)
    ensures |r| == |s| && forall i :: 0 <= i < |s| ==> r[i] == s[|s| - 1 - i]
  {
    if s == [] then [] else Reverse(s[1..]) + [s[0]]
  }

  lemma {:induction false} ReversePerm(s: seq<int>)
    ensures Perm(s, Reverse(s))
    ensures Decreasing(s) ==> Increasing(Reverse(s))
  {
    if s != [] {
      ReversePerm(s[1..]);
      assert s == [s[0]] + s[1..];
    }
  }

  lemma IsReversed(s: seq<int>, t: seq<int>, from: nat, k: int, l: int)
    requires |s| == |t| && from <= |s| && l <= k <= l + 1 && k + l == from + |s| - 1
    requires forall i :: 0 <= i < from || k <= i <= l ==> i < |s| ==> t[i] == s[i]
    requires forall i :: from <= i < k || l < i < |s| ==> 0 <= i < |s| ==> t[i] == s[from + |s| - 1 - i]
    ensures t == s[..from] + Reverse(s[from..])
  {
    var r := s[..from] + Reverse(s[from..]);
    assert |r| == |t|;
    forall i | 0 <= i < |t| ensures t[i] == r[i] {
      if i >= from { assert r[i] == s[from + |s| - 1 - i]; }
    }
  }

  method ReverseSuffix(a: array<int>, from: nat, n: nat)
    requires from <= n <= a.Length
    modifies a
    ensures a[..n] == old(a[..n])[..from] + Reverse(old(a[..n])[from..]) && a[n..] == old(a[n..])
  {
    ghost var s := a[..n];
    var k, l := from, n as int - 1;
    while l > k
      invariant from <= k <= l + 1 && l == n - 1 - (k - from)
      invariant forall i :: 0 <= i < from || k <= i <= l ==> a[i] == s[i]
      invariant forall i :: from <= i < k ==> a[i] == s[from + n - 1 - i]
      invariant forall i :: l < i < n ==> a[i] == s[from + n - 1 - i]
      invariant a[n..] == old(a[n..])
    {
      a[k], a[l] := a[l], a[k];
      l, k := l - 1, k + 1;
    }
    IsReversed(s, a[..n], from, k, l);
  }

  // ----- the enumeration -----

  /** The permutations of `a` that come after `p`. */
  ghost function Later(a: seq<int>, p: seq<int>): set<seq<int>> {
    set q | q in Visits(|a|, a) && |q| == |p| && Less(p, q)
  }

  lemma LaterShrinks(a: seq<int>, p: seq<int>, q: seq<int>)
    requires Perm(a, p) && IsSuccessor(p, q)
    ensures Later(a, q) < Later(a, p)
  {
    VisitsComplete(|a|, a, q);
    LessIrreflexive(q);
    forall r | r in Later(a, q) ensures r in Later(a, p) { LessTransitive(p, q, r); }
    assert q in Later(a, p) && q !in Later(a, q);
  }

  /** `v` holds, in order, `a` and its permutations after it, up to but without `p`. */
  ghost predicate AllBefore(a: seq<int>, v: seq<seq<int>>, p: seq<int>) {
    && (if v == [] then p == a else v[0] == a)
    && Perm(a, p)
    && (forall i :: 0 <= i < |v| ==> Perm(a, v[i]) && Less(v[i], p))
    && (forall i, j :: 0 <= i < j < |v| ==> |v[i]| == |v[j]| && Less(v[i], v[j]))
    && (forall q :: Perm(a, q) && (q == a || Less(a, q)) ==> q in v || q == p || Less(p, q))
  }

  /** `v` is `a` and all its permutations after it, in order. */
  ghost predicate AllFrom(a: seq<int>, v: seq<seq<int>>) {
    && v != [] && v[0] == a
    && (forall i :: 0 <= i < |v| ==> Perm(a, v[i]))
    && (forall i, j :: 0 <= i < j < |v| ==> |v[i]| == |v[j]| && Less(v[i], v[j]))
    && (forall q :: Perm(a, q) && (q == a || Less(a, q)) ==> q in v)
  }

  lemma OneMore(a: seq<int>, v: seq<seq<int>>, p: seq<int>, q: seq<int>)
    requires AllBefore(a, v, p) && IsSuccessor(p, q)
    ensures AllBefore(a, v + [p], q)
  {
    var w := v + [p];
    forall i | 0 <= i < |w| ensures Perm(a, w[i]) && Less(w[i], q) {
      if i < |v| { LessTransitive(v[i], p, q); }
    }
    forall r | Perm(a, r) && (r == a || Less(a, r)) ensures r in w || r == q || Less(q, r) {
      if r in v { assert r in w; } else if r == p { assert w[|v|] == p; }
    }
  }

  lemma LastOne(a: seq<int>, v: seq<seq<int>>, p: seq<int>)
    requires AllBefore(a, v, p) && Decreasing(p)
    ensures AllFrom(a, v + [p])
  {
    var w := v + [p];
    forall r | Perm(a, r) && (r == a || Less(a, r)) ensures r in w {
      DecreasingGreatest(p, r);
      if r == p { assert w[|v|] == p; } else { assert r in v; }
    }
  }

  lemma StartsBefore(a: seq<int>)
    ensures AllBefore(a, [], a)
  {
    LessIrreflexive(a);
  }

  lemma BeforeIsPerm(a: seq<int>, v: seq<seq<int>>, p: seq<int>)
    requires AllBefore(a, v, p)
    ensures Perm(a, p)
  {
  }

  /** Calls back with the array and then with each permutation after it, in order, each once, and stops. */
  method Perm1(x: array<int>, n: nat, callback: Visitor?<int>) returns (ghost visited: seq<seq<int>>)
    requires 1 <= n <= x.Length
    modifies x, callback
    ensures AllFrom(old(x[..n]), visited) && (callback != null ==> callback.log == old(callback.log) + visited)
    ensures visited != [] && x[..n] == visited[|visited| - 1] && x[n..] == old(x[n..])
  {
    ghost var a := x[..n];
    visited := [];
    StartsBefore(a);
    hide AllBefore, AllFrom, IsSuccessor, Decreasing;
    var more := true;
    while more
      invariant callback != null ==> callback.log == old(callback.log) + visited
      invariant x[n..] == old(x[n..])
      invariant !more ==> visited != [] && x[..n] == visited[|visited| - 1]
      invariant if more then AllBefore(a, visited, x[..n]) else AllFrom(a, visited)
      decreases more, Later(a, x[..n])
    {
      ghost var p := x[..n];
      BeforeIsPerm(a, visited, p);
      if callback != null { callback.Call(x, n); }
      more := NextLexPerm(x, n);
      if more {
        OneMore(a, visited, p, x[..n]);
        LaterShrinks(a, p, x[..n]);
      } else {
        LastOne(a, visited, p);
      }
      visited := visited + [p];
    }
  }

  /** Started on the increasing arrangement, it visits all distinct rearrangements. */
  lemma FromTheFirst(a: seq<int>, v: seq<seq<int>>)
    requires Increasing(a) && AllFrom(a, v)
    ensures Distinct(v) && forall p :: p in v <==> Perm(a, p)
  {
    forall i, j | 0 <= i < j < |v| ensures v[i] != v[j] { LessIrreflexive(v[i]); }
    forall p ensures p in v <==> Perm(a, p) {
      if Perm(a, p) { IncreasingLeast(a, p); }
    }
  }
}
