/** The array that stands for a heap: kept sorted, with the smallest frequency at its end. */
module HuffmanHeap {
  import opened HuffmanOptimal

  /** `x` goes behind the last element that is at least as frequent. */
  function Insert(s: seq<nat>, x: nat, f: seq<nat>): (r: seq<nat>)
    requires x < |f| && forall i :: 0 <= i < |s| ==> s[i] < |f|
    ensures |r| == |s| + 1 && forall i :: 0 <= i < |r| ==> r[i] < |f|
  {
    var m := |s|;
    if m == 0 || f[s[m - 1]] >= f[x] then s + [x] else Insert(s[..m - 1], x, f) + [s[m - 1]]
  }

  function InsertionSort(s: seq<nat>, f: seq<nat>): (r: seq<nat>)
    requires forall i :: 0 <= i < |s| ==> s[i] < |f|
    ensures |r| == |s| && forall i :: 0 <= i < |r| ==> r[i] < |f|
  {
    if s == [] then [] else Insert(InsertionSort(s[..|s| - 1], f), s[|s| - 1], f)
  }

  /** Frequencies decrease. */
  predicate HeapOrder(s: seq<nat>, f: seq<nat>) {
    (forall i :: 0 <= i < |s| ==> s[i] < |f|) && forall i, j :: 0 <= i < j < |s| ==> f[s[i]] >= f[s[j]]
  }

  /** What is less frequent is at the end and stays behind `x`; everything else stays in front of it. */
  lemma {:induction false} InsertPlace(s: seq<nat>, x: nat, f: seq<nat>) returns (k: nat)
    requires x < |f| && forall i :: 0 <= i < |s| ==> s[i] < |f|
    ensures k <= |s| && Insert(s, x, f) == s[..k] + [x] + s[k..]
    ensures (k > 0 ==> f[s[k - 1]] >= f[x]) && forall i :: k <= i < |s| ==> f[s[i]] < f[x]
    ensures HeapOrder(s, f) ==> forall i :: 0 <= i < k ==> f[s[i]] >= f[x]
  {
    var m := |s|;
    if m == 0 || f[s[m - 1]] >= f[x] {
      k := m;
      assert s[..k] == s;
    } else {
      k := InsertPlace(s[..m - 1], x, f);
      assert s[..m - 1][..k] == s[..k] && s[..m - 1][k..] + [s[m - 1]] == s[k..];
    }
  }

  lemma {:induction false} InsertAtLeast(s: seq<nat>, x: nat, f: seq<nat>, b: nat)
    requires x < |f| && f[x] >= b && forall i :: 0 <= i < |s| ==> s[i] < |f| && f[s[i]] >= b
    ensures forall i :: 0 <= i <= |s| ==> f[Insert(s, x, f)[i]] >= b
  {
    var m := |s|;
    if m > 0 && f[s[m - 1]] < f[x] {
      InsertAtLeast(s[..m - 1], x, f, b);
      assert Insert(s, x, f) == Insert(s[..m - 1], x, f) + [s[m - 1]];
    }
  }

  lemma {:induction false} InsertDescending(s: seq<nat>, x: nat, f: seq<nat>)
    requires x < |f| && HeapOrder(s, f)
    ensures HeapOrder(Insert(s, x, f), f)
  {
    var m := |s|;
    if m > 0 && f[s[m - 1]] < f[x] {
      InsertDescending(s[..m - 1], x, f);
      InsertAtLeast(s[..m - 1], x, f, f[s[m - 1]]);
      var t, r := Insert(s[..m - 1], x, f), Insert(s, x, f);
      assert r == t + [s[m - 1]];
      forall i, j | 0 <= i < j < |r| ensures f[r[i]] >= f[r[j]] {
        assert r[i] == t[i];
        if j < m { assert f[t[i]] >= f[t[j]]; } else { assert f[t[i]] >= f[s[m - 1]]; }
      }
    }
  }

  lemma {:induction false} SortOfSorted(s: seq<nat>, f: seq<nat>)
    requires HeapOrder(s, f)
    ensures InsertionSort(s, f) == s
  {
    if s != [] {
      SortOfSorted(s[..|s| - 1], f);
      assert s == s[..|s| - 1] + [s[|s| - 1]];
    }
  }

  lemma SortOneMore(s: seq<nat>, x: nat, f: seq<nat>)
    requires x < |f| && HeapOrder(s, f)
    ensures InsertionSort(s + [x], f) == Insert(s, x, f) && HeapOrder(Insert(s, x, f), f)
  {
    SortOfSorted(s, f);
    assert (s + [x])[..|s|] == s;
    InsertDescending(s, x, f);
  }

  lemma AtEnd(s: seq<nat>, x: nat, t: seq<nat>)
    requires t != [] && t[0] == x
    ensures s + t == At(s, |s|, x) + t[1..]
  {
    assert s[..|s|] == s && s[|s|..] == [] && t == [x] + t[1..];
  }

  lemma {:induction false} InsertAt(s: seq<nat>, x: nat, i: nat, f: seq<nat>)
    requires x < |f| && i <= |s| && forall k :: 0 <= k < |s| ==> s[k] < |f|
    requires (i > 0 ==> f[s[i - 1]] >= f[x]) && forall k :: i <= k < |s| ==> f[s[k]] < f[x]
    ensures Insert(s, x, f) == At(s, i, x)
  {
    var m := |s|;
    if i < m {
      InsertAt(s[..m - 1], x, i, f);
      assert s[..m - 1][..i] == s[..i] && s[..m - 1][i..] + [s[m - 1]] == s[i..];
    }
  }

  class Heap {
    const h: array<nat>
    var n: nat
    const f: array<nat>

    /** Room for `s` elements, whose frequencies are found in `f`. */
    constructor (s: nat, f: array<nat>)
      ensures Valid() && n == 0 && h.Length == s && this.f == f && fresh(h)
    {
      h := new nat[s];
      this.f := f;
      n := 0;
    }

    ghost predicate Valid()
      reads this, h, f
    {
      h != f && n <= h.Length && forall i :: 0 <= i < n ==> h[i] < f.Length
    }

    /** Gnome sort: walks back with an element until it is in place, then on to the first one not looked at. */
    method Sort()
      requires Valid()
      modifies h
      ensures Valid() && h[..n] == InsertionSort(old(h[..n]), f[..])
    {
      ghost var s, w := h[..n], f[..];
      WalkStarts(s, w);
      var i, j := 1, 2;
      hide Sorting, Walking, InsertionSort, Insert;
      while i < n
        invariant Valid() && f[..] == w && 1 <= i < j && Sorting(h[..n], s, w, i, j)
        decreases n + 1 - j, i
      {
        ghost var a := h[..n];
        assert h[i - 1] == a[i - 1] && h[i] == a[i];
        SortingNext(a, s, w, i, j);
        if f[h[i - 1]] >= f[h[i]] {
          i, j := j, j + 1;
        } else {
          Exchange(i);
          i := i - 1;
          if i == 0 { i, j := j, j + 1; }
        }
      }
      SortingDone(h[..n], s, w, i, j);
    }

    /** Adds an element to a sorted heap. */
    method Add(c: nat)
      requires Valid() && n < h.Length && c < f.Length && HeapOrder(h[..n], f[..])
      modifies this, h
      ensures Valid() && n == old(n) + 1
      ensures h[..n] == Insert(old(h[..n]), c, f[..]) && HeapOrder(h[..n], f[..])
    {
      hide Insert, InsertionSort, HeapOrder;
      ghost var s, w := h[..n], f[..];
      h[n] := c;
      n := n + 1;
      assert h[..n] == s + [c] && f[..] == w;
      SortOneMore(s, c, w);
      Sort();
    }

    /** Takes the least frequent element, or answers -1. */
    method Remove() returns (r: int)
      requires Valid()
      modifies this
      ensures Valid()
      ensures if old(n) == 0 then r == -1 && n == 0 else n == old(n) - 1 && r == h[n]
      ensures old(n) > 0 && HeapOrder(h[..old(n)], f[..]) ==> forall k :: 0 <= k < old(n) ==> f[h[k]] >= f[r]
    {
      if n > 0 {
        n := n - 1;
        return h[n];
      }
      return -1;
    }

    method Exchange(i: nat)
      requires Valid() && 1 <= i < n
      modifies h
      ensures Valid() && h[..n] == Exchanged(old(h[..n]), i)
    {
      h[i - 1], h[i] := h[i], h[i - 1];
    }
  }

  function Exchanged(a: seq<nat>, i: nat): (r: seq<nat>)
    requires 1 <= i < |a|
    ensures |r| == |a|
  {
    a[i - 1 := a[i]][i := a[i - 1]]
  }

  /** The element first at `j - 1` has been moved back to `i`, past less frequent ones of a sorted prefix. */
  ghost predicate Walking(a: seq<nat>, s: seq<nat>, f: seq<nat>, i: nat, j: nat) {
    && |a| == |s| && 1 <= j <= |s| && i < j && (forall k :: 0 <= k < |s| ==> s[k] < |f|)
    && (var p := InsertionSort(s[..j - 1], f);
        a == At(p, i, s[j - 1]) + s[j..] && forall k :: i <= k < j - 1 ==> f[p[k]] < f[s[j - 1]])
  }

  lemma SortOne(s: seq<nat>, f: seq<nat>)
    requires |s| <= 1 && forall k :: 0 <= k < |s| ==> s[k] < |f|
    ensures InsertionSort(s, f) == s
  {
    if |s| == 1 { assert s[..0] == []; }
  }

  /** With a sorted prefix of `j - 1` elements the walk starts at its end. */
  lemma WalkFrom(a: seq<nat>, s: seq<nat>, f: seq<nat>, j: nat)
    requires 2 <= j <= |s| && forall k :: 0 <= k < |s| ==> s[k] < |f|
    requires a == InsertionSort(s[..j - 1], f) + s[j - 1..]
    ensures Walking(a, s, f, j - 1, j)
  {
    var p, c, t := InsertionSort(s[..j - 1], f), s[j - 1], s[j - 1..];
    assert t != [] && t[0] == c && t[1..] == s[j..] && |p| == j - 1;
    hide InsertionSort, At;
    AtEnd(p, c, t);
  }

  ghost predicate Sorting(a: seq<nat>, s: seq<nat>, f: seq<nat>, i: nat, j: nat) {
    |a| == |s| && 1 <= i < j && (forall k :: 0 <= k < |s| ==> s[k] < |f|)
    && if i < |s| then Walking(a, s, f, i, j) else a == InsertionSort(s, f)
  }

  lemma SortingNext(a: seq<nat>, s: seq<nat>, f: seq<nat>, i: nat, j: nat)
    requires Sorting(a, s, f, i, j) && i < |s| && (forall k :: 0 <= k < |a| ==> a[k] < |f|)
    ensures j <= |s|
    ensures if f[a[i - 1]] >= f[a[i]] then Sorting(a, s, f, j, j + 1)
      else if i > 1 then Sorting(Exchanged(a, i), s, f, i - 1, j) else Sorting(Exchanged(a, i), s, f, j, j + 1)
  {
    if f[a[i - 1]] >= f[a[i]] { WalkEnds(a, s, f, i, j); } else { WalkBack(a, s, f, i, j); }
  }

  lemma SortingDone(a: seq<nat>, s: seq<nat>, f: seq<nat>, i: nat, j: nat)
    requires Sorting(a, s, f, i, j) && i >= |a|
    ensures a == InsertionSort(s, f)
  {
  }

  lemma WalkStarts(s: seq<nat>, f: seq<nat>)
    requires forall k :: 0 <= k < |s| ==> s[k] < |f|
    ensures Sorting(s, s, f, 1, 2)
  {
    if |s| >= 2 {
      var p := s[..1];
      SortOne(p, f);
      assert s == p + s[1..] == InsertionSort(p, f) + s[1..];
      WalkFrom(s, s, f, 2);
    } else {
      SortOne(s, f);
    }
  }

  /** An element that is in place ends the walk. */
  lemma WalkEnds(a: seq<nat>, s: seq<nat>, f: seq<nat>, i: nat, j: nat)
    requires Walking(a, s, f, i, j) && a[i] < |f| && (i > 0 ==> a[i - 1] < |f| && f[a[i - 1]] >= f[a[i]])
    ensures if j < |s| then Walking(a, s, f, j, j + 1) else a == InsertionSort(s, f)
  {
    var p := InsertionSort(s[..j - 1], f);
    assert a[i] == s[j - 1] && (i > 0 ==> a[i - 1] == p[i - 1]);
    InsertAt(p, s[j - 1], i, f);
    SortStep(s, j, f);
    if j < |s| {
      WalkFrom(a, s, f, j + 1);
    } else {
      assert s[..j] == s && s[j..] == [];
    }
  }

  lemma SortStep(s: seq<nat>, j: nat, f: seq<nat>)
    requires 1 <= j <= |s| && forall k :: 0 <= k < |s| ==> s[k] < |f|
    ensures InsertionSort(s[..j], f) == Insert(InsertionSort(s[..j - 1], f), s[j - 1], f)
  {
    assert s[..j][..j - 1] == s[..j - 1];
  }

  /** A step back keeps the walk going, or brings the element to the front and ends it. */
  lemma WalkBack(a: seq<nat>, s: seq<nat>, f: seq<nat>, i: nat, j: nat)
    requires Walking(a, s, f, i, j) && i >= 1 && a[i] < |f| && a[i - 1] < |f| && f[a[i - 1]] < f[a[i]]
    ensures var b := Exchanged(a, i);
      if i > 1 then Walking(b, s, f, i - 1, j)
      else if j < |s| then Walking(b, s, f, j, j + 1) else b == InsertionSort(s, f)
  {
    var p, c := InsertionSort(s[..j - 1], f), s[j - 1];
    assert a[i] == c && a[i - 1] == p[i - 1];
    ExchangedAt(p, c, i, s[j..]);
    var b := Exchanged(a, i);
    assert forall k :: i - 1 <= k < j - 1 ==> f[p[k]] < f[c];
    assert Walking(b, s, f, i - 1, j);
    if i == 1 {
      assert b[0] == c;
      WalkEnds(b, s, f, 0, j);
    }
  }

  lemma ExchangedAt(p: seq<nat>, c: nat, i: nat, tail: seq<nat>)
    requires 1 <= i <= |p|
    ensures Exchanged(At(p, i, c) + tail, i) == At(p, i - 1, c) + tail
  {
  }
}
