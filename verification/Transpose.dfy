/** In-place transposition by following the cycles of the index map. */
module Transpose {
  import opened Arithmetic

  /** The index whose element belongs at index `p` of the transposed matrix. */
  function From(p: nat, w: nat, h: nat): nat
    requires h > 0
  {
    (p % h) * w + p / h
  }

  lemma FromInRange(p: nat, w: nat, h: nat)
    requires h > 0 && p < w * h
    ensures From(p, w, h) < w * h
    ensures From(p, w, h) / w == p % h && From(p, w, h) % w == p / h
  {
    var q, r := p / h, p % h;
    if w <= q { MulMono(w, q, h); }
    MulMono(r + 1, h, w);
    assert (r + 1) * w == r * w + w;
    DivMod(r, q, w);
  }

  lemma FromInjective(p: nat, q: nat, w: nat, h: nat)
    requires h > 0 && p < w * h && q < w * h && From(p, w, h) == From(q, w, h)
    ensures p == q
  {
    FromInRange(p, w, h);
    FromInRange(q, w, h);
    assert p == (p / h) * h + p % h && q == (q / h) * h + q % h;
  }

  /** `k` steps along the cycle of `p`. */
  function Iter(p: nat, k: nat, w: nat, h: nat): nat
    requires h > 0
    decreases k
  {
    if k == 0 then p else Iter(From(p, w, h), k - 1, w, h)
  }

  lemma {:induction false} IterAdd(p: nat, j: nat, k: nat, w: nat, h: nat)
    requires h > 0
    ensures Iter(p, j + k, w, h) == Iter(Iter(p, j, w, h), k, w, h)
    decreases j
  {
    if j > 0 { IterAdd(From(p, w, h), j - 1, k, w, h); }
  }

  /** The cycle of `p` has a member before `start`. */
  ghost predicate Done(p: nat, start: nat, w: nat, h: nat)
    requires h > 0
  {
    exists k: nat :: Iter(p, k, w, h) < start
  }

  /** Consecutive, distinct members of the cycle of `start`, none of them before it. */
  ghost predicate Path(path: seq<nat>, start: nat, w: nat, h: nat)
    requires h > 0
  {
    && path != [] && path[0] == start
    && (forall i :: 0 <= i < |path| ==> start <= path[i] < w * h)
    && (forall i :: 0 <= i < |path| - 1 ==> path[i + 1] == From(path[i], w, h))
    && (forall i, j :: 0 <= i < j < |path| ==> path[i] != path[j])
  }

  lemma {:induction false} DistinctBound(s: seq<nat>, n: nat)
    requires forall i :: 0 <= i < |s| ==> s[i] < n
    requires forall i, j :: 0 <= i < j < |s| ==> s[i] != s[j]
    ensures |s| <= n
  {
    assert |s| > 0 ==> s[0] < n;
    if n == 0 {
    } else if n - 1 in s {
      var i :| 0 <= i < |s| && s[i] == n - 1;
      var t := s[..i] + s[i + 1..];
      assert forall k :: 0 <= k < |t| ==> t[k] == s[if k < i then k else k + 1];
      DistinctBound(t, n - 1);
    } else {
      DistinctBound(s, n - 1);
    }
  }

  lemma {:induction false} IterPath(path: seq<nat>, i: nat, k: nat, start: nat, w: nat, h: nat)
    requires h > 0 && Path(path, start, w, h) && i + k < |path|
    ensures Iter(path[i], k, w, h) == path[i + k]
    decreases k
  {
    if k > 0 { IterPath(path, i + 1, k - 1, start, w, h); }
  }

  /** The next index is new to the path unless the cycle closes. */
  lemma PathGrows(path: seq<nat>, start: nat, w: nat, h: nat)
    requires h > 0 && Path(path, start, w, h)
    ensures var next := From(path[|path| - 1], w, h);
      next < w * h && (next > start ==> Path(path + [next], start, w, h))
  {
    var last := path[|path| - 1];
    var next := From(last, w, h);
    FromInRange(last, w, h);
    if next in path && next != start {
      var j :| 0 <= j < |path| && path[j] == next;
      FromInjective(last, path[j - 1], w, h);
      assert false;
    }
  }

  // ----- one starting index more -----

  /** The cycle of `start` reaches below it: it has been rotated already. */
  lemma NotLeast(path: seq<nat>, start: nat, w: nat, h: nat)
    requires h > 0 && Path(path, start, w, h) && From(path[|path| - 1], w, h) < start
    ensures forall p :: 0 <= p < w * h ==> (Done(p, start + 1, w, h) <==> Done(p, start, w, h))
  {
    var n := |path|;
    forall p | 0 <= p < w * h && Done(p, start + 1, w, h) ensures Done(p, start, w, h) {
      var k: nat :| Iter(p, k, w, h) < start + 1;
      if Iter(p, k, w, h) == start {
        IterPath(path, 0, n - 1, start, w, h);
        IterAdd(start, n - 1, 1, w, h);
        IterAdd(p, k, n, w, h);
        assert Iter(p, k + n, w, h) < start;
      }
    }
    forall p | 0 <= p < w * h && Done(p, start, w, h) ensures Done(p, start + 1, w, h) { DoneLater(p, start, w, h); }
  }

  ghost predicate Cycle(path: seq<nat>, start: nat, w: nat, h: nat)
    requires h > 0
  {
    Path(path, start, w, h) && From(path[|path| - 1], w, h) == start
  }

  lemma {:induction false} StaysInCycle(path: seq<nat>, i: nat, k: nat, start: nat, w: nat, h: nat)
    requires h > 0 && Cycle(path, start, w, h) && i < |path|
    ensures Iter(path[i], k, w, h) in path
    decreases k
  {
    if k > 0 { StaysInCycle(path, if i + 1 == |path| then 0 else i + 1, k - 1, start, w, h); }
  }

  /** Only members of the cycle lead into it. */
  lemma {:induction false} CameFromCycle(path: seq<nat>, p: nat, k: nat, start: nat, w: nat, h: nat)
    requires h > 0 && Cycle(path, start, w, h) && p < w * h && Iter(p, k, w, h) in path
    ensures p in path
    decreases k
  {
    if k > 0 {
      FromInRange(p, w, h);
      var q := From(p, w, h);
      CameFromCycle(path, q, k - 1, start, w, h);
      var j :| 0 <= j < |path| && path[j] == q;
      FromInjective(p, if j == 0 then path[|path| - 1] else path[j - 1], w, h);
    }
  }

  /** The cycle of `start` is the only one to be rotated at `start`. */
  lemma Least(path: seq<nat>, start: nat, w: nat, h: nat)
    requires h > 0 && Cycle(path, start, w, h)
    ensures forall p :: 0 <= p < w * h ==>
      (Done(p, start + 1, w, h) <==> Done(p, start, w, h) || p in path) && !(Done(p, start, w, h) && p in path)
  {
    forall p | 0 <= p < w * h
      ensures (Done(p, start + 1, w, h) <==> Done(p, start, w, h) || p in path) && !(Done(p, start, w, h) && p in path)
    {
      if p in path {
        var i :| 0 <= i < |path| && path[i] == p;
        forall k: nat ensures Iter(p, k, w, h) >= start { StaysInCycle(path, i, k, start, w, h); }
        IterPath(path, i, |path| - 1 - i, start, w, h);
        IterAdd(p, |path| - 1 - i, 1, w, h);
        assert Iter(p, |path| - i, w, h) < start + 1;
      } else if Done(p, start + 1, w, h) {
        var k: nat :| Iter(p, k, w, h) < start + 1;
        if Iter(p, k, w, h) == start { CameFromCycle(path, p, k, start, w, h); }
        assert Iter(p, k, w, h) < start;
      }
      DoneLater(p, start, w, h);
    }
  }

  lemma DoneLater(p: nat, start: nat, w: nat, h: nat)
    requires h > 0
    ensures Done(p, start, w, h) ==> Done(p, start + 1, w, h)
  {
    if Done(p, start, w, h) {
      var k: nat :| Iter(p, k, w, h) < start;
      assert Iter(p, k, w, h) < start + 1;
    }
  }

  // ----- the algorithm -----

  /** The cycles with a member before `start` hold the transposed matrix, the others the original one. */
  ghost predicate Placed<T>(m: seq<T>, m0: seq<T>, start: nat, w: nat, h: nat)
    requires h > 0 && |m| == |m0|
  {
    w * h <= |m| && (forall p :: w * h <= p < |m| ==> m[p] == m0[p])
    && forall p :: 0 <= p < w * h ==>
      From(p, w, h) < w * h && m[p] == if Done(p, start, w, h) then m0[From(p, w, h)] else m0[p]
  }

  /** The elements of the path's first `n` indices have been moved. */
  ghost predicate Moved<T>(m: seq<T>, m1: seq<T>, path: seq<nat>, n: nat)
    requires |m| == |m1| && n <= |path|
  {
    && (forall i :: 0 <= i < |path| ==> path[i] < |m|)
    && (forall i :: 0 <= i < n ==> m[path[i]] == m1[if i + 1 == |path| then path[0] else path[i + 1]])
    && (forall p :: 0 <= p < |m| && p !in path[..n] ==> m[p] == m1[p])
  }

  /** Rotating a cycle places its members, and leaves everything else. */
  lemma CycleMoved<T>(m: seq<T>, m1: seq<T>, m0: seq<T>, path: seq<nat>, start: nat, w: nat, h: nat)
    requires h > 0 && |m| == |m1| == |m0| && Cycle(path, start, w, h)
    requires Placed(m1, m0, start, w, h) && Moved(m, m1, path, |path|)
    ensures Placed(m, m0, start + 1, w, h)
  {
    assert path[..|path|] == path;
    Least(path, start, w, h);
    forall p | 0 <= p < w * h
      ensures From(p, w, h) < w * h && m[p] == if Done(p, start + 1, w, h) then m0[From(p, w, h)] else m0[p]
    {
      FromInRange(p, w, h);
      if p in path {
        var i :| 0 <= i < |path| && path[i] == p;
        MovedAt(m, m1, m0, path, i, start, w, h);
      }
    }
  }

  lemma MovedAt<T>(m: seq<T>, m1: seq<T>, m0: seq<T>, path: seq<nat>, i: nat, start: nat, w: nat, h: nat)
    requires h > 0 && |m| == |m1| == |m0| && Cycle(path, start, w, h) && i < |path| && w * h <= |m|
    requires forall p :: p in path && p < w * h ==> m1[p] == m0[p]
    requires Moved(m, m1, path, |path|)
    ensures From(path[i], w, h) < w * h && m[path[i]] == m0[From(path[i], w, h)]
  {
    var q := if i + 1 == |path| then path[0] else path[i + 1];
    assert q in path && q == From(path[i], w, h);
  }

  lemma NoneDone<T>(m: seq<T>, w: nat, h: nat)
    requires w * h <= |m|
    ensures h > 0 ==> Placed(m, m, 0, w, h)
  {
    if h > 0 {
      forall p | 0 <= p < w * h ensures From(p, w, h) < w * h { FromInRange(p, w, h); }
    }
  }

  /** Moving the element for the path's `n`th index. */
  lemma MoveOne<T>(m: seq<T>, m1: seq<T>, path: seq<nat>, n: nat, start: nat, w: nat, h: nat)
    requires h > 0 && |m| == |m1| && n < |path| && Cycle(path, start, w, h) && Moved(m, m1, path, n)
    ensures var q := From(path[n], w, h);
      && q < |m| && q == (if n + 1 == |path| then start else path[n + 1])
      && (q == start <==> n + 1 == |path|) && (q > start <==> n + 1 < |path|)
      && Moved(m[path[n] := if q == start then m1[start] else m[q]], m1, path, n + 1)
  {
    var q := From(path[n], w, h);
    if n + 1 < |path| { assert q == path[n + 1] && path[0] != path[n + 1]; }
    var m' := m[path[n] := if q == start then m1[start] else m[q]];
    assert path[..n + 1] == path[..n] + [path[n]];
    assert q != start ==> q !in path[..n];
  }

  /** In the end every cycle has been rotated. */
  lemma AllDone<T>(m: seq<T>, m0: seq<T>, w: nat, h: nat)
    requires |m| == |m0| && w * h <= |m| && (h > 0 ==> Placed(m, m0, w * h, w, h)) && (h == 0 ==> m == m0)
    ensures forall i, j :: 0 <= i < h && 0 <= j < w ==>
      At(i, j, w) < w * h && At(j, i, h) < w * h && m[At(j, i, h)] == m0[At(i, j, w)]
    ensures forall p :: w * h <= p < |m| ==> m[p] == m0[p]
  {
    forall i, j | 0 <= i < h && 0 <= j < w
      ensures At(i, j, w) < w * h && At(j, i, h) < w * h && m[At(j, i, h)] == m0[At(i, j, w)]
    {
      var p := At(j, i, h);
      MulMono(j + 1, w, h);
      assert (j + 1) * h == j * h + h;
      DivMod(j, i, h);
      assert Iter(p, 0, w, h) < w * h;
      FromInRange(p, w, h);
    }
  }

  /** Follows the cycle of `start` until it comes back to `start` or to an index before it. */
  method FollowCycle(start: nat, w: nat, h: nat) returns (next: nat, i: nat, ghost path: seq<nat>)
    requires h > 0 && start < w * h
    ensures Path(path, start, w, h) && next == From(path[|path| - 1], w, h) && next <= start && i == |path|
  {
    next, i, path := start, 0, [start];
    var again := true;
    while again
      invariant next < w * h && Path(path, start, w, h)
      invariant if again then next == path[|path| - 1] && |path| == i + 1
                else next == From(path[|path| - 1], w, h) && next <= start && |path| == i
      decreases again, w * h - |path|
    {
      i := i + 1;
      PathGrows(path, start, w, h);
      next := From(next, w, h);
      again := next > start;
      if again {
        path := path + [next];
        DistinctBound(path, w * h);
      }
    }
  }

  method RotateCycle<T>(m: array<T>, w: nat, h: nat, start: nat, ghost path: seq<nat>)
    requires h > 0 && w * h <= m.Length && Cycle(path, start, w, h)
    modifies m
    ensures Moved(m[..], old(m[..]), path, |path|)
  {
    var next, i := start, 0;
    var tmp := m[next];
    var again := true;
    ghost var j := 0;
    while again
      invariant j <= |path| && (if again then j < |path| && next == path[j] else j == |path|)
      invariant Moved(m[..], old(m[..]), path, j)
      decreases |path| - j
    {
      MoveOne(m[..], old(m[..]), path, j, start, w, h);
      i := From(next, w, h);
      m[next] := if i == start then tmp else m[i];
      next := i;
      j := j + 1;
      again := next > start;
    }
  }

  /** The matrix of `h` rows and `w` columns that the array starts with is transposed; what is behind it stays. */
  method TransposeInPlace<T>(m: array<T>, w: nat, h: nat)
    requires w * h <= m.Length
    modifies m
    ensures forall i, j :: 0 <= i < h && 0 <= j < w ==>
      At(i, j, w) < w * h && At(j, i, h) < w * h && m[At(j, i, h)] == old(m[At(i, j, w)])
    ensures forall p :: w * h <= p < m.Length ==> m[p] == old(m[p])
  {
    ghost var m0 := m[..];
    NoneDone(m0, w, h);
    for start := 0 to w * h
      invariant h > 0 ==> Placed(m[..], m0, start, w, h)
      invariant h == 0 ==> m[..] == m0
    {
      var next, i;
      ghost var path;
      next, i, path := FollowCycle(start, w, h);
      if next < start {
        NotLeast(path, start, w, h);
      } else if i == 1 {
        CycleMoved(m[..], m[..], m0, path, start, w, h);
      } else {
        ghost var m1 := m[..];
        RotateCycle(m, w, h, start, path);
        CycleMoved(m[..], m1, m0, path, start, w, h);
      }
    }
    AllDone(m[..], m0, w, h);
  }

  function At(row: nat, column: nat, width: nat): nat { row * width + column }
}
