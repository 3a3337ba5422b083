/** The fast Fourier transform that swaps two buffers at each level, and the quadratic sum it computes. */
module Fft {
  import opened Arithmetic
  import opened Complex

  // ----- the discrete Fourier transform -----

  /** The sum of `x[j] * w^(j * k)`. */
  function Dft(x: seq<Cplx>, w: Cplx, k: nat): Cplx {
    if x == [] then Zero else
    var j := |x| - 1;
    Add(Dft(x[..j], w, k), Mul(x[j], Pow(w, j * k)))
  }

  function Evens(x: seq<Cplx>): (r: seq<Cplx>)
    ensures |r| == |x| / 2
  {
    seq(|x| / 2, j requires 0 <= j < |x| / 2 => x[2 * j])
  }

  function Odds(x: seq<Cplx>): (r: seq<Cplx>)
    ensures |r| == |x| / 2
  {
    seq(|x| / 2, j requires 0 <= j < |x| / 2 => x[2 * j + 1])
  }

  lemma DftSnoc(x: seq<Cplx>, a: Cplx, w: Cplx, k: nat)
    ensures Dft(x + [a], w, k) == Add(Dft(x, w, k), Mul(a, Pow(w, |x| * k)))
  {
    assert (x + [a])[..|x|] == x;
  }

  lemma HalvesSnoc(x: seq<Cplx>, a: Cplx, b: Cplx)
    requires |x| % 2 == 0
    ensures Evens(x + [a] + [b]) == Evens(x) + [a] && Odds(x + [a] + [b]) == Odds(x) + [b]
  {
  }

  /** The powers that the last two elements are multiplied by. */
  lemma LastPowers(w: Cplx, m: nat, k: nat, b: Cplx)
    ensures Pow(Mul(w, w), m * k) == Pow(w, (2 * m) * k)
    ensures Mul(b, Pow(w, (2 * m + 1) * k)) == Mul(Pow(w, k), Mul(b, Pow(w, (2 * m) * k)))
  {
    hide Mul;
    PowSquare(w);
    PowMul(w, 2, m * k);
    assert 2 * (m * k) == (2 * m) * k && (2 * m + 1) * k == k + (2 * m) * k;
    PowAdd(w, k, (2 * m) * k);
    var u, v := Pow(w, k), Pow(w, (2 * m) * k);
    MulAssoc(b, u, v);
    MulCommutes(b, u);
    MulAssoc(u, b, v);
  }

  lemma PowSquare(w: Cplx)
    ensures Pow(w, 2) == Mul(w, w)
  {
    assert Pow(w, 2) == Mul(w, Pow(w, 1)) && Pow(w, 1) == Mul(w, Pow(w, 0));
    MulOne(w);
  }

  /** Even and odd elements apart. */
  lemma {:induction false} DftSplits(x: seq<Cplx>, w: Cplx, k: nat)
    requires |x| % 2 == 0
    ensures Dft(x, w, k) == Add(Dft(Evens(x), Mul(w, w), k), Mul(Pow(w, k), Dft(Odds(x), Mul(w, w), k)))
  {
    hide Mul, Add, Pow;
    if x == [] {
      MulOne(Pow(w, k));
      AddRules(Zero, Zero, Zero, Zero);
    } else {
      var m := |x| / 2 - 1;
      var y, a, b := x[..2 * m], x[2 * m], x[2 * m + 1];
      assert x == y + [a] + [b];
      DftSplits(y, w, k);
      HalvesSnoc(y, a, b);
      hide Evens, Odds;
      DftSnoc(y, a, w, k);
      DftSnoc(y + [a], b, w, k);
      var v := Mul(w, w);
      DftSnoc(Evens(y), a, v, k);
      DftSnoc(Odds(y), b, v, k);
      LastPowers(w, m, k, b);
      SplitStep(Dft(Evens(y), v, k), Dft(Odds(y), v, k), Mul(a, Pow(w, (2 * m) * k)), Mul(b, Pow(w, (2 * m) * k)), Pow(w, k));
    }
  }

  lemma SplitStep(e: Cplx, o: Cplx, p: Cplx, q: Cplx, u: Cplx)
    ensures Add(Add(Add(e, Mul(u, o)), p), Mul(u, q)) == Add(Add(e, p), Mul(u, Add(o, q)))
  {
    Distributes(u, o, q);
  }

  /** With `w^h == 1` the transform has period `h`. */
  lemma {:induction false} DftPeriodic(x: seq<Cplx>, w: Cplx, k: nat, h: nat)
    requires Pow(w, h) == One
    ensures Dft(x, w, k + h) == Dft(x, w, k)
  {
    hide Mul, Add;
    if x != [] {
      var j := |x| - 1;
      DftPeriodic(x[..j], w, k, h);
      PowMul(w, h, j);
      PowOne(j);
      assert j * (k + h) == j * k + h * j;
      PowAdd(w, j * k, h * j);
      MulOne(Pow(w, j * k));
    }
  }

  /** One butterfly: the transform at `k` and half a period later, from the transforms of both halves. */
  lemma Butterfly(x: seq<Cplx>, w: Cplx, h: nat, k: nat)
    requires |x| == 2 * h && Pow(w, h) == MinusOne
    ensures var e, t := Dft(Evens(x), Mul(w, w), k), Mul(Pow(w, k), Dft(Odds(x), Mul(w, w), k));
      Dft(x, w, k) == Add(e, t) && Dft(x, w, k + h) == Sub(e, t)
  {
    hide Mul, Add, Sub, Dft, Evens, Odds;
    var v := Mul(w, w);
    DftSplits(x, w, k);
    DftSplits(x, w, k + h);
    PowSquare(w);
    PowMul(w, 2, h);
    PowMul(w, h, 2);
    PowSquare(Pow(w, h));
    assert 2 * h == h * 2;
    MulMinusOne(Dft(Evens(x), v, k), Pow(w, k), Dft(Odds(x), v, k));
    DftPeriodic(Evens(x), v, k, h);
    DftPeriodic(Odds(x), v, k, h);
    PowAdd(w, k, h);
  }

  // ----- in two buffers -----

  /** Element `j` of the class of indices that starts at `off`. */
  function At(off: nat, step: nat, j: nat): nat { off + step * j }

  lemma AtApart(off: nat, step: nat, count: nat, i: nat, j: nat)
    requires off < step && i < count && j < count
    ensures At(off, step, j) < step * count && At(off, step, j) % step == off
    ensures i != j ==> At(off, step, i) != At(off, step, j)
  {
    DivMod(j, off, step);
    DivMod(i, off, step);
    MulMono(j + 1, count, step);
    assert step * j == j * step && step * i == i * step && step * count == count * step;
  }

  /** The two halves of a class are classes of twice the step. */
  lemma AtTwice(off: nat, step: nat, k: nat)
    ensures At(off, 2 * step, k) == At(off, step, 2 * k) && At(off + step, 2 * step, k) == At(off, step, 2 * k + 1)
  {
    assert (2 * step) * k == step * (2 * k) && step * (2 * k + 1) == step * (2 * k) + step;
  }

  lemma ModTwice(p: nat, step: nat)
    requires step > 0
    ensures p % step == (if p % (2 * step) < step then p % (2 * step) else p % (2 * step) - step)
  {
    var d := 2 * step;
    var q := Quotient(p, d);
    var r := p % d;
    assert p == (2 * step) * q + r;
    ModHalves(q, r, step);
  }

  lemma Quotient(p: nat, d: nat) returns (q: nat)
    requires d > 0
    ensures p == d * q + p % d && p % d < d
  {
    q := p / d;
  }

  lemma ModHalves(q: nat, r: nat, step: nat)
    requires r < 2 * step
    ensures ((2 * step) * q + r) % step == if r < step then r else r - step
  {
    if r < step { ModLow(q, r, step); } else { ModHigh(q, r, step); }
  }

  lemma ModLow(q: nat, r: nat, step: nat)
    requires r < step
    ensures ((2 * step) * q + r) % step == r
  {
    assert (2 * step) * q == (2 * q) * step;
    DivMod(2 * q, r, step);
  }

  lemma ModHigh(q: nat, r: nat, step: nat)
    requires step <= r < 2 * step
    ensures ((2 * step) * q + r) % step == r - step
  {
    assert (2 * step) * q + step == (2 * q + 1) * step;
    DivMod(2 * q + 1, r - step, step);
  }

  ghost predicate PowerOfTwo(n: nat)
    decreases n
  {
    n == 1 || (n > 1 && n % 2 == 0 && PowerOfTwo(n / 2))
  }

  /** The elements of a class. */
  ghost predicate Holds(a: seq<Cplx>, off: nat, step: nat, x: seq<Cplx>) {
    forall j: nat | j < |x| :: At(off, step, j) < |a| && a[At(off, step, j)] == x[j]
  }

  /** The same outside the class. */
  ghost predicate SameElsewhere(a: seq<Cplx>, b: seq<Cplx>, off: nat, step: nat)
    requires step > 0
  {
    |a| == |b| && forall p: nat | p < |a| && p % step != off :: a[p] == b[p]
  }

  function Transform(x: seq<Cplx>, w: Cplx): (r: seq<Cplx>)
    ensures |r| == |x| && forall k :: 0 <= k < |x| ==> r[k] == Dft(x, w, k)
  {
    seq(|x|, k requires 0 <= k < |x| => Dft(x, w, k))
  }

  lemma HoldsHalves(a: seq<Cplx>, off: nat, step: nat, x: seq<Cplx>)
    requires Holds(a, off, step, x) && |x| % 2 == 0
    ensures Holds(a, off, 2 * step, Evens(x)) && Holds(a, off + step, 2 * step, Odds(x))
  {
    HoldsEvens(a, off, step, x);
    HoldsOdds(a, off, step, x);
  }

  lemma HoldsEvens(a: seq<Cplx>, off: nat, step: nat, x: seq<Cplx>)
    requires Holds(a, off, step, x) && |x| % 2 == 0
    ensures Holds(a, off, 2 * step, Evens(x))
  {
    var e := Evens(x);
    forall k: nat | k < |e| ensures At(off, 2 * step, k) < |a| && a[At(off, 2 * step, k)] == e[k] {
      HoldsAt(a, off, step, x, 2 * k);
      AtTwice(off, step, k);
    }
  }

  lemma HoldsOdds(a: seq<Cplx>, off: nat, step: nat, x: seq<Cplx>)
    requires Holds(a, off, step, x) && |x| % 2 == 0
    ensures Holds(a, off + step, 2 * step, Odds(x))
  {
    var o := Odds(x);
    forall k: nat | k < |o| ensures At(off + step, 2 * step, k) < |a| && a[At(off + step, 2 * step, k)] == o[k] {
      HoldsAt(a, off, step, x, 2 * k + 1);
      AtTwice(off, step, k);
    }
  }

  lemma HoldsAt(a: seq<Cplx>, off: nat, step: nat, x: seq<Cplx>, j: nat)
    requires Holds(a, off, step, x) && j < |x|
    ensures At(off, step, j) < |a| && a[At(off, step, j)] == x[j]
  {
  }

  /** What another class holds is kept. */
  lemma HoldsKept(a: seq<Cplx>, b: seq<Cplx>, off: nat, other: nat, step: nat, x: seq<Cplx>)
    requires other < step && off != other && SameElsewhere(a, b, off, step) && Holds(a, other, step, x)
    ensures Holds(b, other, step, x)
  {
    forall j: nat | j < |x| ensures At(other, step, j) < |b| && b[At(other, step, j)] == x[j] {
      AtApart(other, step, j + 1, j, j);
    }
  }

  lemma SameTwice(a: seq<Cplx>, b: seq<Cplx>, c: seq<Cplx>, off: nat, step: nat)
    requires off < step && SameElsewhere(a, b, off, 2 * step) && SameElsewhere(b, c, off + step, 2 * step)
    ensures SameElsewhere(a, c, off, step)
  {
    forall p: nat | p < |a| && p % step != off ensures a[p] == c[p] { ModTwice(p, step); }
  }

  /** What a class holds after the first `k` butterflies. */
  ghost predicate Combined(a: seq<Cplx>, off: nat, step: nat, r: seq<Cplx>, k: nat) {
    forall j: nat | j < |r| && (if j < |r| / 2 then j < k else j - |r| / 2 < k) ::
      At(off, step, j) < |a| && a[At(off, step, j)] == r[j]
  }

  lemma CombineStep(a: seq<Cplx>, off: nat, step: nat, r: seq<Cplx>, k: nat, u: Cplx, v: Cplx)
    requires Combined(a, off, step, r, k) && off < step && |a| == step * |r| && |r| % 2 == 0 && k < |r| / 2
    requires u == r[k] && v == r[k + |r| / 2]
    ensures At(off, step, k) < |a| && At(off, step, k + |r| / 2) < |a|
    ensures var b := a[At(off, step, k) := u][At(off, step, k + |r| / 2) := v];
      Combined(b, off, step, r, k + 1) && SameElsewhere(a, b, off, step)
  {
    var h := |r| / 2;
    AtApart(off, step, |r|, k, k + h);
    AtApart(off, step, |r|, k + h, k);
    var b := a[At(off, step, k) := u][At(off, step, k + h) := v];
    forall j: nat | j < |r| && (if j < h then j < k + 1 else j - h < k + 1)
      ensures At(off, step, j) < |b| && b[At(off, step, j)] == r[j]
    {
      AtApart(off, step, |r|, j, k);
      AtApart(off, step, |r|, j, k + h);
    }
  }

  /** The indices that the program computes. */
  lemma ButterflyIndices(step: nat, h: nat, k: nat)
    ensures (2 * step * k) / 2 == step * k && (2 * step * k + step * (2 * h)) / 2 == step * (k + h)
  {
    assert 2 * step * k == 2 * (step * k) && step * (2 * h) == 2 * (step * h) && step * (k + h) == step * k + step * h;
  }

  /** Butterflies of the transforms of the two halves, found in `out`. */
  method Combine(buf: array<Cplx>, out: array<Cplx>, off: nat, n: nat, step: nat, root: Cplx, ghost x: seq<Cplx>)
    requires buf != out && buf.Length == out.Length == n == step * |x| && off < step && |x| > 0 && |x| % 2 == 0
    requires Pow(root, n) == MinusOne
    requires Holds(out[..], off, 2 * step, Transform(Evens(x), Pow(root, 4 * step)))
    requires Holds(out[..], off + step, 2 * step, Transform(Odds(x), Pow(root, 4 * step)))
    modifies buf
    ensures Holds(buf[..], off, step, Transform(x, Pow(root, 2 * step))) && SameElsewhere(old(buf[..]), buf[..], off, step)
  {
    hide Combined, SameElsewhere, Holds, Transform, Pow, Mul, Add, Sub, Evens, Odds;
    ghost var h, r, k, before := |x| / 2, Transform(x, Pow(root, 2 * step)), 0, buf[..];
    var i := 0;
    CombineStarts(before, off, step, r);
    while i < n
      invariant 0 <= k <= h && i == 2 * step * k
      invariant Combined(buf[..], off, step, r, k) && SameElsewhere(before, buf[..], off, step)
      decreases h - k
    {
      StillBelow(step, h, k, i, n);
      ButterflyIndices(step, h, k);
      ButterflyAt(out[..], off, step, root, x, k);
      var t := Mul(Pow(root, i), out[off + i + step]);
      ghost var b := buf[..];
      ghost var u, v := Add(out[off + i], t), Sub(out[off + i], t);
      CombineStep(b, off, step, r, k, u, v);
      buf[off + i / 2] := Add(out[off + i], t);
      buf[off + (i + n) / 2] := Sub(out[off + i], t);
      assert buf[..] == b[At(off, step, k) := u][At(off, step, k + h) := v];
      SameChain(before, b, buf[..], off, step);
      i := i + 2 * step;
      k := k + 1;
      assert 2 * step * k == 2 * step * (k - 1) + 2 * step;
    }
    AllCombined(buf[..], off, step, r, k, i, n);
  }

  lemma SameChain(a: seq<Cplx>, b: seq<Cplx>, c: seq<Cplx>, off: nat, step: nat)
    requires step > 0 && SameElsewhere(a, b, off, step) && SameElsewhere(b, c, off, step)
    ensures SameElsewhere(a, c, off, step)
  {
  }

  lemma CombineStarts(a: seq<Cplx>, off: nat, step: nat, r: seq<Cplx>)
    requires step > 0
    ensures Combined(a, off, step, r, 0) && SameElsewhere(a, a, off, step)
  {
  }

  lemma StillBelow(step: nat, h: nat, k: nat, i: nat, n: nat)
    requires i == 2 * step * k < n == step * (2 * h) && k <= h
    ensures k < h
  {
    var d := 2 * step;
    if k >= h { MulMono(h, k, d); }
  }

  lemma AllCombined(a: seq<Cplx>, off: nat, step: nat, r: seq<Cplx>, k: nat, i: nat, n: nat)
    requires step > 0 && Combined(a, off, step, r, k) && i == 2 * step * k >= n == step * |r| && |r| % 2 == 0 && k <= |r| / 2
    ensures Holds(a, off, step, r)
  {
    var h := |r| / 2;
    if k < h { MulMono(k + 1, h, 2 * step); }
    assert k == h;
  }

  /** What the butterfly at `k` reads and makes. */
  lemma ButterflyAt(a: seq<Cplx>, off: nat, step: nat, root: Cplx, x: seq<Cplx>, k: nat)
    requires |a| == step * |x| && |x| % 2 == 0 && k < |x| / 2 && Pow(root, |a|) == MinusOne
    requires Holds(a, off, 2 * step, Transform(Evens(x), Pow(root, 4 * step)))
    requires Holds(a, off + step, 2 * step, Transform(Odds(x), Pow(root, 4 * step)))
    ensures off + 2 * step * k < |a| && off + 2 * step * k + step < |a|
    ensures var t := Mul(Pow(root, 2 * step * k), a[off + 2 * step * k + step]);
      var r := Transform(x, Pow(root, 2 * step));
      r[k] == Add(a[off + 2 * step * k], t) && r[k + |x| / 2] == Sub(a[off + 2 * step * k], t)
  {
    hide Pow, Mul, Add, Sub, Evens, Odds, Dft;
    var h, w := |x| / 2, Pow(root, 2 * step);
    assert At(off, 2 * step, k) == off + 2 * step * k && At(off + step, 2 * step, k) == off + step + 2 * step * k;
    PowMul(root, 2 * step, h);
    assert (2 * step) * h == step * |x|;
    PowMul(root, 2 * step, 2);
    PowSquare(w);
    assert (2 * step) * 2 == 4 * step;
    PowMul(root, 2 * step, k);
    Butterfly(x, w, h, k);
  }

  /** Leaves the transform of a class in `buf`, whose elements were in both buffers; touches no other class. */
  method Recurse(buf: array<Cplx>, out: array<Cplx>, off: nat, n: nat, step: nat, root: Cplx, ghost x: seq<Cplx>)
    requires buf != out && buf.Length == out.Length == n == step * |x| && off < step && PowerOfTwo(|x|)
    requires Pow(root, n) == MinusOne && Holds(buf[..], off, step, x) && Holds(out[..], off, step, x)
    modifies buf, out
    ensures Holds(buf[..], off, step, Transform(x, Pow(root, 2 * step)))
    ensures SameElsewhere(old(buf[..]), buf[..], off, step) && SameElsewhere(old(out[..]), out[..], off, step)
    decreases |x|
  {
    hide Holds, SameElsewhere, Transform, Pow, Mul, Evens, Odds;
    SmallStep(step, |x|);
    if step < n {
      ghost var b0, o0 := buf[..], out[..];
      TwiceStep(step, |x|);
      HoldsHalves(b0, off, step, x);
      HoldsHalves(o0, off, step, x);
      Recurse(out, buf, off, n, step * 2, root, Evens(x));
      ghost var b1, o1 := buf[..], out[..];
      HoldsKept(b0, b1, off, off + step, 2 * step, Odds(x));
      HoldsKept(o0, o1, off, off + step, 2 * step, Odds(x));
      Recurse(out, buf, off + step, n, step * 2, root, Odds(x));
      ghost var b2, o2 := buf[..], out[..];
      HoldsKept(o1, o2, off + step, off, 2 * step, Transform(Evens(x), Pow(root, 4 * step)));
      SameTwice(b0, b1, b2, off, step);
      SameTwice(o0, o1, o2, off, step);
      Combine(buf, out, off, n, step, root, x);
      SameChain(b0, b2, buf[..], off, step);
    } else {
      OnePoint(x, Pow(root, 2 * step));
      CombineStarts(buf[..], off, step, x);
      CombineStarts(out[..], off, step, x);
    }
  }

  lemma SmallStep(step: nat, count: nat)
    requires step > 0 && PowerOfTwo(count)
    ensures step < step * count <==> count > 1
  {
    if count > 1 { MulMono(2, count, step); }
  }

  lemma TwiceStep(step: nat, count: nat)
    requires PowerOfTwo(count) && count > 1
    ensures count % 2 == 0 && PowerOfTwo(count / 2) && 2 * step * (count / 2) == step * count
  {
    Regroup(step, count, count / 2);
  }

  lemma Regroup(step: nat, count: nat, h: nat)
    requires count == 2 * h
    ensures 2 * step * h == step * count
  {
  }

  lemma SquareOf(w: Cplx, e: nat)
    requires e == 2
    ensures Pow(w, e) == Mul(w, w)
  {
    PowSquare(w);
  }

  /** With step 1 the class is the whole buffer. */
  lemma HoldsAll(a: seq<Cplx>, x: seq<Cplx>)
    requires |a| == |x|
    ensures Holds(a, 0, 1, x) <==> a == x
  {
    assert forall j: nat :: At(0, 1, j) == j;
    if Holds(a, 0, 1, x) {
      forall j: nat | j < |a| ensures a[j] == x[j] { assert a[At(0, 1, j)] == x[j]; }
    }
  }

  lemma OnePoint(x: seq<Cplx>, w: Cplx)
    requires |x| == 1
    ensures Transform(x, w) == x
  {
    assert Dft(x[..0], w, 0) == Zero;
    MulOne(x[0]);
    AddRules(x[0], Zero, Zero, Zero);
    assert Dft(x, w, 0) == x[0];
  }

  method Copy(buf: array<Cplx>) returns (out: array<Cplx>)
    ensures fresh(out) && out[..] == buf[..]
  {
    out := new Cplx[buf.Length];
    var i := 0;
    while i < buf.Length
      invariant 0 <= i <= buf.Length && forall k :: 0 <= k < i ==> out[k] == buf[k]
    {
      out[i] := buf[i];
      i := i + 1;
    }
  }

  /** The fast transform computes the quadratic one; `root` is the root of -1 whose powers the butterflies use. */
  method Fft(buf: array<Cplx>, n: nat, root: Cplx)
    requires Pow(root, n) == MinusOne && buf.Length == n && PowerOfTwo(n)
    modifies buf
    ensures buf[..] == Transform(old(buf[..]), Mul(root, root))
  {
    hide Holds, Pow, Mul, Transform, SameElsewhere, PowerOfTwo;
    ghost var x := buf[..];
    var out := Copy(buf);
    HoldsAll(x, x);
    Recurse(buf, out, 0, n, 1, root, x);
    SquareOf(root, 2 * 1);
    HoldsAll(buf[..], Transform(x, Pow(root, 2 * 1)));
  }
}
