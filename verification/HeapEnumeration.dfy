/** Boothroyd's recursion visits every permutation exactly once. */
module HeapEnumeration {

  function Swap<T>(a: seq<T>, i: nat, j: nat): seq<T>
    requires i < |a| && j < |a|
  {
    a[i := a[j]][j := a[i]]
  }

  /** The place that the last element of the first `n` is swapped with in round `c`. */
  function Partner(n: nat, c: nat): nat { if n % 2 == 1 then 0 else c }

  /** The first `n` elements after `c` swaps of the outermost loop. */
  function Stage<T>(n: nat, a: seq<T>, c: nat): (r: seq<T>)
    requires |a| == n >= 2 && c < n
    ensures |r| == n
    decreases n, c
  {
    if c == 0 then a else Swap(Inner(n, Stage(n, a, c - 1)), n - 1, Partner(n, c - 1))
  }

  /** The recursive call rearranges all but the last element. */
  function Inner<T>(n: nat, a: seq<T>): (r: seq<T>)
    requires |a| == n >= 2
    ensures |r| == n && r[n - 1] == a[n - 1]
    decreases n, 0
  {
    Net(n - 1, a[..n - 1]) + [a[n - 1]]
  }

  /** What the recursion leaves of `n` elements. */
  function Net<T>(n: nat, a: seq<T>): (r: seq<T>)
    requires |a| == n
    ensures |r| == n
    decreases n, n
  {
    if n <= 1 then a else Inner(n, Stage(n, a, n - 1))
  }

  // ----- the net rearrangement in closed form -----

  /** For even `m`, reading the elements in this order turns the net rearrangement into a rotation. */
  function Order(m: nat, i: nat): nat {
    if 1 <= i && i + 3 <= m then m - 2 - i else i
  }

  function ReadOff<T>(a: seq<T>): (r: seq<T>)
    ensures |r| == |a|
  {
    seq(|a|, i requires 0 <= i < |a| => a[Order(|a|, i)])
  }

  function Rotated<T>(b: seq<T>): seq<T>
    requires b != []
  {
    b[1..] + [b[0]]
  }

  ghost predicate IsNet<T>(n: nat, a: seq<T>, r: seq<T>)
    requires |a| == |r| == n >= 1
  {
    if n % 2 == 1 then r == Swap(a, 0, n - 1) else ReadOff(r) == Rotated(ReadOff(a))
  }

  lemma ReadOffInjective<T>(a: seq<T>, b: seq<T>)
    requires |a| == |b| && ReadOff(a) == ReadOff(b)
    ensures a == b
  {
    forall k | 0 <= k < |a| ensures a[k] == b[k] {
      assert ReadOff(a)[Order(|a|, k)] == ReadOff(b)[Order(|a|, k)];
    }
  }

  /** Where the last element of stage `c` was to begin with. */
  function LastIndex(n: nat, c: nat): nat
    requires c < n
  {
    if c == 0 then n - 1
    else if c == n - 1 then 0
    else if n % 2 == 1 then Order(n - 1, c)
    else if c == 1 then n - 2 else c - 1
  }

  /** The stage in which element `k` comes last. */
  function StageOf(n: nat, k: nat): nat
    requires k < n
  {
    if k == n - 1 then 0
    else if k == 0 then n - 1
    else if n % 2 == 1 then Order(n - 1, k)
    else if k == n - 2 then 1 else k + 1
  }

  lemma LastIndexBijective(n: nat)
    requires n >= 2
    ensures forall c :: 0 <= c < n ==> LastIndex(n, c) < n && StageOf(n, LastIndex(n, c)) == c
    ensures forall k :: 0 <= k < n ==> StageOf(n, k) < n && LastIndex(n, StageOf(n, k)) == k
  {
  }

  // ----- even n: the recursive calls swap the first and the last but one -----

  /** Where element `k` of stage `c` was to begin with. */
  function EvenIndex(n: nat, c: nat, k: nat): nat
    requires n >= 4 && c < n && k < n
  {
    if c == 0 then k
    else if k == n - 1 then LastIndex(n, c)
    else if k == 0 then (if c % 2 == 1 then n - 1 else 0)
    else if k == n - 2 && c < n - 1 then (if c % 2 == 1 then 0 else n - 1)
    else if k < c then (if k == 1 then n - 2 else k - 1)
    else k
  }

  lemma EvenInner<T>(n: nat, s: seq<T>, k: nat)
    requires |s| == n >= 4 && n % 2 == 0 && k < n
    ensures Inner(n, s)[k] == s[if k == 0 then n - 2 else if k == n - 2 then 0 else k]
    decreases n, 0, 0
  {
    NetClosed(n - 1, s[..n - 1]);
  }

  lemma {:induction false} EvenStages<T>(n: nat, a: seq<T>, c: nat)
    requires |a| == n >= 4 && n % 2 == 0 && c < n
    ensures forall k :: 0 <= k < n ==> EvenIndex(n, c, k) < n && Stage(n, a, c)[k] == a[EvenIndex(n, c, k)]
    decreases n, 1, c
  {
    if c > 0 {
      var s := Stage(n, a, c - 1);
      EvenStages(n, a, c - 1);
      var u := Inner(n, s);
      var t := Swap(u, n - 1, c - 1);
      forall k | 0 <= k < n ensures EvenIndex(n, c, k) < n && t[k] == a[EvenIndex(n, c, k)] {
        EvenStep(n, c, k);
        var j := if k == n - 1 then c - 1 else if k == c - 1 then n - 1 else k;
        EvenInner(n, s, j);
        assert t[k] == u[j];
      }
    }
  }

  lemma EvenStep(n: nat, c: nat, k: nat)
    requires n >= 4 && n % 2 == 0 && 1 <= c < n && k < n
    ensures var j := if k == n - 1 then c - 1 else if k == c - 1 then n - 1 else k;
      EvenIndex(n, c, k) == EvenIndex(n, c - 1, if j == 0 then n - 2 else if j == n - 2 then 0 else j)
  {
  }

  lemma EvenNet<T>(n: nat, a: seq<T>)
    requires |a| == n >= 4 && n % 2 == 0
    ensures IsNet(n, a, Net(n, a))
    decreases n, 2
  {
    var s := Stage(n, a, n - 1);
    EvenStages(n, a, n - 1);
    var r := Net(n, a);
    assert r == Inner(n, s);
    hide Net, Stage, Inner;
    forall i | 0 <= i < n ensures ReadOff(r)[i] == Rotated(ReadOff(a))[i] { EvenNetAt(n, a, s, i); }
  }

  /** After the last stage one more recursive call turns the elements, read off, by one. */
  lemma EvenNetAt<T>(n: nat, a: seq<T>, s: seq<T>, i: nat)
    requires |a| == |s| == n >= 4 && n % 2 == 0 && i < n
    requires forall k :: 0 <= k < n ==> EvenIndex(n, n - 1, k) < n && s[k] == a[EvenIndex(n, n - 1, k)]
    ensures ReadOff(Inner(n, s))[i] == Rotated(ReadOff(a))[i]
    decreases n, 0, 1
  {
    EvenInner(n, s, Order(n, i));
    hide Inner, Net, Stage;
    var k := Order(n, i);
    var j := if k == 0 then n - 2 else if k == n - 2 then 0 else k;
    assert ReadOff(Inner(n, s))[i] == s[j] == a[EvenIndex(n, n - 1, j)];
    assert EvenIndex(n, n - 1, j) == Order(n, if i == n - 1 then 0 else i + 1);
  }

  // ----- odd n: the recursive calls rotate -----

  /** The elements in the order in which they come last. */
  function Lasts<T>(n: nat, a: seq<T>): (z: seq<T>)
    requires |a| == n >= 3
    ensures |z| == n
  {
    var b := ReadOff(a[..n - 1]);
    [a[n - 1]] + b[1..] + [b[0]]
  }

  /** Which of the lasts element `i` of stage `c`, read off, is. */
  function OddIndex(n: nat, c: nat, i: nat): nat
    requires c < n && i < n
  {
    if i == 0 then (if c == 0 then n - 1 else c - 1) else if c + i < n then c + i else c + i - n
  }

  lemma NetReadOff<T>(n: nat, s: seq<T>, i: nat)
    requires |s| == n >= 3 && n % 2 == 1 && i < n - 1
    ensures ReadOff(Net(n - 1, s[..n - 1]))[i] == ReadOff(s[..n - 1])[if i == n - 2 then 0 else i + 1]
    decreases n, 0, 0
  {
    NetClosed(n - 1, s[..n - 1]);
  }

  lemma ReadOffUpdate<T>(u: seq<T>, x: T, y: T, i: nat)
    requires i < |u|
    ensures ReadOff(Swap(u + [x], |u|, 0)[..|u|])[i] == if i == 0 then x else ReadOff(u)[i]
    ensures Swap(u + [x], |u|, 0)[|u|] == ReadOff(u)[0]
  {
  }

  /** The elements of stage `c`, in terms of the lasts. */
  ghost predicate OddHolds<T>(n: nat, s: seq<T>, z: seq<T>, c: nat)
    requires |s| == |z| == n >= 3 && c < n
  {
    (forall i :: 0 <= i < n - 1 ==> ReadOff(s[..n - 1])[i] == z[OddIndex(n, c, i)]) && s[n - 1] == z[c]
  }

  /** From one stage to the next. */
  lemma OddStep<T>(n: nat, s: seq<T>, t: seq<T>, z: seq<T>, c: nat, i: nat)
    requires |s| == |t| == |z| == n >= 3 && n % 2 == 1 && 1 <= c < n && i < n - 1
    requires OddHolds(n, s, z, c - 1) && t == Swap(Inner(n, s), n - 1, 0)
    ensures ReadOff(t[..n - 1])[i] == z[OddIndex(n, c, i)] && t[n - 1] == ReadOff(Net(n - 1, s[..n - 1]))[0]
    decreases n, 0, 1
  {
    var u := Net(n - 1, s[..n - 1]);
    assert Inner(n, s) == u + [s[n - 1]];
    NetReadOff(n, s, i);
    hide Net, Inner;
    ReadOffUpdate(u, s[n - 1], s[n - 1], i);
    var j := if i == n - 2 then 0 else i + 1;
    assert ReadOff(s[..n - 1])[j] == z[OddIndex(n, c - 1, j)];
  }

  lemma OddStepLast<T>(n: nat, s: seq<T>, t: seq<T>, z: seq<T>, c: nat)
    requires |s| == |t| == |z| == n >= 3 && n % 2 == 1 && 1 <= c < n
    requires OddHolds(n, s, z, c - 1) && t == Swap(Inner(n, s), n - 1, 0)
    ensures t[n - 1] == z[c]
    decreases n, 0, 2
  {
    OddStep(n, s, t, z, c, 0);
    NetReadOff(n, s, 0);
    hide Net, Inner;
    assert ReadOff(s[..n - 1])[1] == z[OddIndex(n, c - 1, 1)];
  }

  lemma {:induction false} OddStages<T>(n: nat, a: seq<T>, c: nat)
    requires |a| == n >= 3 && n % 2 == 1 && c < n
    ensures OddHolds(n, Stage(n, a, c), Lasts(n, a), c)
    decreases n, 1, c
  {
    if c > 0 {
      var s, t, z := Stage(n, a, c - 1), Stage(n, a, c), Lasts(n, a);
      assert t == Swap(Inner(n, s), n - 1, 0);
      OddStages(n, a, c - 1);
      hide Stage, Net, Inner, Lasts, ReadOff, Swap;
      forall i | 0 <= i < n - 1 ensures ReadOff(t[..n - 1])[i] == z[OddIndex(n, c, i)] { OddStep(n, s, t, z, c, i); }
      OddStepLast(n, s, t, z, c);
    }
  }

  lemma OddNet<T>(n: nat, a: seq<T>)
    requires |a| == n >= 3 && n % 2 == 1
    ensures IsNet(n, a, Net(n, a))
    decreases n, 2
  {
    var s := Stage(n, a, n - 1);
    OddStages(n, a, n - 1);
    var u := Net(n - 1, s[..n - 1]);
    var w := Swap(a, 0, n - 1);
    assert Net(n, a) == u + [s[n - 1]];
    hide Net, Stage, Inner;
    forall i | 0 <= i < n - 1 ensures ReadOff(u)[i] == ReadOff(w[..n - 1])[i] {
      NetReadOff(n, s, i);
      ReadOffUpdate(a[..n - 1], a[n - 1], a[n - 1], i);
      assert a == a[..n - 1] + [a[n - 1]];
      var j := if i == n - 2 then 0 else i + 1;
      assert OddIndex(n, n - 1, j) == i;
      assert ReadOff(s[..n - 1])[j] == Lasts(n, a)[i];
      assert Lasts(n, a)[i] == ReadOff(w[..n - 1])[i];
    }
    ReadOffInjective(u, w[..n - 1]);
    assert w == u + [a[0]];
  }

  /** For odd n the first and the last element change places; for even n the elements rotate in a certain order. */
  lemma {:induction false} NetClosed<T>(n: nat, a: seq<T>)
    requires |a| == n >= 1
    ensures IsNet(n, a, Net(n, a))
    decreases n, 3
  {
    if n == 2 {
      assert Stage(2, a, 1) == Swap(a, 1, 0);
      assert ReadOff(Net(2, a)) == Rotated(ReadOff(a));
    } else if n >= 4 && n % 2 == 0 {
      EvenNet(n, a);
    } else if n >= 3 {
      OddNet(n, a);
    }
  }

  /** Each element comes last in exactly one stage. */
  lemma StageLast<T>(n: nat, a: seq<T>, c: nat)
    requires |a| == n >= 2 && c < n
    ensures LastIndex(n, c) < n && Stage(n, a, c)[n - 1] == a[LastIndex(n, c)]
  {
    if n == 2 {
      if c == 1 { StageStep(n, a, c); }
    } else if n % 2 == 0 {
      hide Stage;
      EvenStages(n, a, c);
    } else {
      hide Stage;
      OddStages(n, a, c);
    }
  }

  // ----- what is visited -----

  /** Each arrangement followed by the same elements. */
  function With<T>(ps: seq<seq<T>>, rest: seq<T>): (r: seq<seq<T>>)
    ensures |r| == |ps|
  {
    seq(|ps|, i requires 0 <= i < |ps| => ps[i] + rest)
  }

  /** All arrangements that the recursion goes through, the initial one included. */
  function Visits<T>(n: nat, a: seq<T>): (r: seq<seq<T>>)
    requires |a| == n
    ensures r != [] && r[0] == a
    decreases n, n + 1
  {
    if n <= 1 then [a] else VisitsFrom(n, a, 0)
  }

  /** Those of them from stage `c` on. */
  function VisitsFrom<T>(n: nat, a: seq<T>, c: nat): (r: seq<seq<T>>)
    requires |a| == n >= 2 && c < n
    ensures r != [] && r[0] == Stage(n, a, c)
    decreases n, n - c
  {
    Round(n, Stage(n, a, c)) + if c == n - 1 then [] else VisitsFrom(n, a, c + 1)
  }

  /** Those from one stage to the next: the last element stays in its place. */
  function Round<T>(n: nat, s: seq<T>): (r: seq<seq<T>>)
    requires |s| == n >= 2
    ensures r != [] && r[0] == s
    decreases n, 0
  {
    assert s == s[..n - 1] + [s[n - 1]];
    With(Visits(n - 1, s[..n - 1]), [s[n - 1]])
  }

  function Factorial(n: nat): nat { if n == 0 then 1 else n * Factorial(n - 1) }

  function Times(j: nat, f: nat): nat { if j == 0 then 0 else f + Times(j - 1, f) }

  lemma {:induction false} TimesIsMul(j: nat, f: nat)
    ensures Times(j, f) == j * f
  {
    if j > 0 { TimesIsMul(j - 1, f); }
  }

  lemma {:induction false} VisitsCount<T>(n: nat, a: seq<T>)
    requires |a| == n
    ensures |Visits(n, a)| == Factorial(n)
    decreases n, n + 1
  {
    if n >= 2 {
      VisitsFromCount(n, a, 0, Factorial(n - 1));
      TimesIsMul(n, Factorial(n - 1));
    }
  }

  lemma {:induction false} VisitsFromCount<T>(n: nat, a: seq<T>, c: nat, f: nat)
    requires |a| == n >= 2 && c < n && f == Factorial(n - 1)
    ensures |VisitsFrom(n, a, c)| == Times(n - c, f)
    decreases n, n - c
  {
    var s := Stage(n, a, c);
    VisitsCount(n - 1, s[..n - 1]);
    assert |Round(n, s)| == f;
    if c < n - 1 {
      VisitsFromCount(n, a, c + 1, f);
      assert |VisitsFrom(n, a, c)| == |Round(n, s)| + |VisitsFrom(n, a, c + 1)|;
    } else {
      assert |VisitsFrom(n, a, c)| == |Round(n, s)|;
      assert Times(1, f) == f + Times(0, f);
    }
  }

  ghost predicate Perm<T>(a: seq<T>, b: seq<T>) { |a| == |b| && multiset(a) == multiset(b) }

  lemma SwapPerm<T>(a: seq<T>, i: nat, j: nat)
    requires i < |a| && j < |a|
    ensures Perm(a, Swap(a, i, j))
  {
  }

  lemma PermPrefix<T>(a: seq<T>, b: seq<T>)
    requires Perm(a, b) && a != [] && a[|a| - 1] == b[|b| - 1]
    ensures Perm(a[..|a| - 1], b[..|b| - 1])
  {
    BagFront(a);
    BagFront(b);
  }

  lemma BagFront<T>(a: seq<T>)
    requires a != []
    ensures multiset(a[..|a| - 1]) == multiset(a) - multiset{a[|a| - 1]}
  {
    assert a == a[..|a| - 1] + [a[|a| - 1]];
  }

  lemma {:induction false} StagePerm<T>(n: nat, a: seq<T>, c: nat)
    requires |a| == n >= 2 && c < n
    ensures Perm(a, Stage(n, a, c))
    decreases n, c
  {
    if c > 0 {
      StagePerm(n, a, c - 1);
      InnerPerm(n, Stage(n, a, c - 1));
      StageStep(n, a, c);
      hide Stage, Inner, Swap;
      SwapPerm(Inner(n, Stage(n, a, c - 1)), n - 1, Partner(n, c - 1));
    }
  }

  lemma StageStep<T>(n: nat, a: seq<T>, c: nat)
    requires |a| == n >= 2 && 0 < c < n
    ensures Stage(n, a, c) == Swap(Inner(n, Stage(n, a, c - 1)), n - 1, Partner(n, c - 1))
  {
    hide Inner, Swap;
  }

  lemma {:induction false} InnerPerm<T>(n: nat, s: seq<T>)
    requires |s| == n >= 2
    ensures Perm(s, Inner(n, s))
    decreases n, 0
  {
    var p := s[..n - 1];
    assert s == p + [s[n - 1]];
    if n > 2 {
      StagePerm(n - 1, p, n - 2);
      InnerPerm(n - 1, Stage(n - 1, p, n - 2));
    }
    assert Perm(p, Net(n - 1, p));
  }

  /** A visit is one of the first round, or one from the next stage on. */
  lemma VisitSplit<T>(n: nat, a: seq<T>, c: nat, i: nat)
    requires |a| == n >= 2 && c < n && i < |VisitsFrom(n, a, c)|
    ensures var r := Round(n, Stage(n, a, c));
      if i < |r| then VisitsFrom(n, a, c)[i] == r[i]
      else c + 1 < n && i - |r| < |VisitsFrom(n, a, c + 1)| && VisitsFrom(n, a, c)[i] == VisitsFrom(n, a, c + 1)[i - |r|]
  {
    hide Round, Stage, Visits;
  }

  lemma RoundAt<T>(n: nat, s: seq<T>, i: nat)
    requires |s| == n >= 2 && i < |Round(n, s)|
    ensures i < |Visits(n - 1, s[..n - 1])| && Round(n, s)[i] == Visits(n - 1, s[..n - 1])[i] + [s[n - 1]]
  {
    hide Visits;
  }

  /** Only permutations are visited. */
  lemma {:induction false} VisitsSound<T>(n: nat, a: seq<T>, c: nat, i: nat)
    requires |a| == n >= 2 && c < n && i < |VisitsFrom(n, a, c)|
    ensures Perm(a, VisitsFrom(n, a, c)[i])
    decreases n, n - c, 1
  {
    hide Stage, Round, Visits, VisitsFrom;
    var s := Stage(n, a, c);
    VisitSplit(n, a, c, i);
    StagePerm(n, a, c);
    if i < |Round(n, s)| {
      RoundSound(n, s, i);
    } else {
      VisitsSound(n, a, c + 1, i - |Round(n, s)|);
    }
  }

  lemma {:induction false} RoundSound<T>(n: nat, s: seq<T>, i: nat)
    requires |s| == n >= 2 && i < |Round(n, s)|
    ensures Perm(s, Round(n, s)[i])
    decreases n, 0, 0
  {
    RoundAt(n, s, i);
    var p := Visits(n - 1, s[..n - 1])[i];
    assert Perm(s[..n - 1], p) by { if n > 2 { VisitsSound(n - 1, s[..n - 1], 0, i); } }
    hide Round, Visits;
    PermAppend(s, p);
  }

  lemma PermAppend<T>(s: seq<T>, p: seq<T>)
    requires s != [] && Perm(s[..|s| - 1], p)
    ensures Perm(s, p + [s[|s| - 1]])
  {
    assert s == s[..|s| - 1] + [s[|s| - 1]];
  }

  /** A visit of a stage from `c` on is a visit from `c` on. */
  lemma {:induction false} LaterVisits<T>(n: nat, a: seq<T>, c: nat, d: nat, p: seq<T>)
    requires |a| == n >= 2 && c <= d < n && p in Round(n, Stage(n, a, d))
    ensures p in VisitsFrom(n, a, c)
    decreases d - c
  {
    if c < d { LaterVisits(n, a, c + 1, d, p); }
  }

  lemma InWith<T>(v: seq<seq<T>>, p: seq<T>, rest: seq<T>)
    requires p in v
    ensures p + rest in With(v, rest)
  {
    var i :| 0 <= i < |v| && v[i] == p;
    assert With(v, rest)[i] == p + rest;
  }

  lemma OnlyOne<T>(a: seq<T>, p: seq<T>)
    requires |a| <= 1 && Perm(a, p)
    ensures p in [a]
  {
    if |a| == 1 { assert p[0] in multiset(a); }
    assert p == a;
  }

  lemma VisitedInStage<T>(n: nat, a: seq<T>, c: nat, p: seq<T>)
    requires |a| == n >= 2 && c < n && |p| == n && p[n - 1] == Stage(n, a, c)[n - 1]
    requires p[..n - 1] in Visits(n - 1, Stage(n, a, c)[..n - 1])
    ensures p in VisitsFrom(n, a, 0)
  {
    assert p == p[..n - 1] + [p[n - 1]];
    InWith(Visits(n - 1, Stage(n, a, c)[..n - 1]), p[..n - 1], [p[n - 1]]);
    LaterVisits(n, a, 0, c, p);
  }

  /** Every permutation is visited. */
  lemma {:induction false} VisitsComplete<T>(n: nat, a: seq<T>, p: seq<T>)
    requires |a| == n && Perm(a, p)
    ensures p in Visits(n, a)
    decreases n
  {
    if n <= 1 {
      OnlyOne(a, p);
    } else {
      var c := EndsInStage(n, a, p);
      var s := Stage(n, a, c);
      PermPrefix(s, p);
      VisitsComplete(n - 1, s[..n - 1], p[..n - 1]);
      VisitedInStage(n, a, c, p);
    }
  }

  /** The stage whose last element is that of a given permutation. */
  lemma EndsInStage<T>(n: nat, a: seq<T>, p: seq<T>) returns (c: nat)
    requires |a| == n >= 2 && Perm(a, p)
    ensures c < n && Stage(n, a, c)[n - 1] == p[n - 1] && Perm(Stage(n, a, c), p)
  {
    assert p[n - 1] in multiset(a);
    var k :| 0 <= k < n && a[k] == p[n - 1];
    LastIndexBijective(n);
    c := StageOf(n, k);
    StageLast(n, a, c);
    StagePerm(n, a, c);
  }

  ghost predicate Distinct<T>(a: seq<T>) { forall i, j :: 0 <= i < j < |a| ==> a[i] != a[j] }

  lemma {:induction false} CountOnce<T>(a: seq<T>, x: T)
    requires Distinct(a)
    ensures multiset(a)[x] <= 1
  {
    if a != [] {
      var i := a[..|a| - 1];
      assert a == i + [a[|a| - 1]];
      CountOnce(i, x);
    }
  }

  lemma CountTwice<T>(b: seq<T>, i: nat, j: nat)
    requires i < j < |b| && b[i] == b[j]
    ensures multiset(b)[b[i]] >= 2
  {
    assert b == b[..j] + b[j..];
    assert b[i] in b[..j] && b[j..][0] == b[i];
    assert b[i] in multiset(b[..j]) && b[i] in multiset(b[j..]);
  }

  lemma DistinctPerm<T>(a: seq<T>, b: seq<T>)
    requires Distinct(a) && Perm(a, b)
    ensures Distinct(b)
  {
    forall i, j | 0 <= i < j < |b| ensures b[i] != b[j] {
      CountOnce(a, b[i]);
      if b[i] == b[j] { CountTwice(b, i, j); }
    }
  }

  /** The visits from stage `c` on end in the elements that come last from stage `c` on. */
  lemma {:induction false} VisitLast<T>(n: nat, a: seq<T>, c: nat, i: nat) returns (d: nat)
    requires |a| == n >= 2 && c < n && i < |VisitsFrom(n, a, c)|
    ensures c <= d < n && |VisitsFrom(n, a, c)[i]| == n && VisitsFrom(n, a, c)[i][n - 1] == Stage(n, a, d)[n - 1]
    decreases n - c
  {
    hide Stage, Round, Visits, VisitsFrom;
    var r := Round(n, Stage(n, a, c));
    VisitsSound(n, a, c, i);
    VisitSplit(n, a, c, i);
    if i < |r| {
      d := c;
      RoundAt(n, Stage(n, a, c), i);
    } else {
      d := VisitLast(n, a, c + 1, i - |r|);
    }
  }

  /** No arrangement of distinct elements is visited twice. */
  lemma {:induction false} VisitsDistinct<T>(n: nat, a: seq<T>)
    requires |a| == n && Distinct(a)
    ensures Distinct(Visits(n, a))
    decreases n, n + 1
  {
    if n >= 2 { VisitsFromDistinct(n, a, 0); }
  }

  lemma {:induction false} VisitsFromDistinct<T>(n: nat, a: seq<T>, c: nat)
    requires |a| == n >= 2 && c < n && Distinct(a)
    ensures Distinct(VisitsFrom(n, a, c))
    decreases n, n - c
  {
    hide Stage, Distinct;
    var s := Stage(n, a, c);
    StagePerm(n, a, c);
    DistinctPerm(a, s);
    var v, last := Visits(n - 1, s[..n - 1]), [s[n - 1]];
    VisitsDistinct(n - 1, s[..n - 1]);
    WithDistinct(v, last);
    if c < n - 1 {
      VisitsFromDistinct(n, a, c + 1);
      var x, y := With(v, last), VisitsFrom(n, a, c + 1);
      forall i, j | 0 <= i < |x| && 0 <= j < |y| ensures x[i] != y[j] {
        VisitsSound(n, a, c, i);
        DifferentLast(n, a, c, x[i], j);
      }
      DistinctConcat(x, y);
    } else {
      assert VisitsFrom(n, a, c) == With(v, last);
    }
  }

  lemma AppendInjective<T>(x: seq<T>, y: seq<T>, rest: seq<T>)
    ensures x + rest == y + rest ==> x == y
  {
    if |x| == |y| {
      assert (x + rest)[..|x|] == x && (y + rest)[..|y|] == y;
    }
  }

  lemma WithDistinct<T>(v: seq<seq<T>>, rest: seq<T>)
    requires Distinct(v)
    ensures Distinct(With(v, rest))
  {
    forall i, j | 0 <= i < j < |v| ensures v[i] + rest != v[j] + rest {
      AppendInjective(v[i], v[j], rest);
    }
  }

  lemma DistinctConcat<T>(x: seq<T>, y: seq<T>)
    requires Distinct(x) && Distinct(y) && forall i, j :: 0 <= i < |x| && 0 <= j < |y| ==> x[i] != y[j]
    ensures Distinct(x + y)
  {
  }

  lemma DifferentLast<T>(n: nat, a: seq<T>, c: nat, p: seq<T>, j: nat)
    requires |a| == n >= 2 && c < n - 1 && Distinct(a)
    requires |p| == n && p[n - 1] == Stage(n, a, c)[n - 1] && j < |VisitsFrom(n, a, c + 1)|
    ensures p != VisitsFrom(n, a, c + 1)[j]
  {
    var d := VisitLast(n, a, c + 1, j);
    LastIndexBijective(n);
    StageLast(n, a, c);
    StageLast(n, a, d);
    assert LastIndex(n, c) != LastIndex(n, d);
  }

  /** The n! visits of n distinct elements are all their permutations, each once. */
  lemma EveryPermutationOnce<T>(n: nat, a: seq<T>)
    requires |a| == n && Distinct(a)
    ensures |Visits(n, a)| == Factorial(n) && Distinct(Visits(n, a))
    ensures forall p :: p in Visits(n, a) <==> Perm(a, p)
  {
    VisitsCount(n, a);
    VisitsDistinct(n, a);
    forall p ensures p in Visits(n, a) <==> Perm(a, p) {
      if Perm(a, p) {
        VisitsComplete(n, a, p);
      } else if p in Visits(n, a) && n >= 2 {
        var i :| 0 <= i < |Visits(n, a)| && Visits(n, a)[i] == p;
        VisitsSound(n, a, 0, i);
      }
    }
  }
}
