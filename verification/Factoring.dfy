/** Primality, the next prime, and prime factors, from a table of primes. */
module Factoring {
  import opened Arithmetic
  import opened Primes
  import opened Wheel
  import opened PrimeTable

  /** The first number that the table has no bit for. */
  function Limit(t: seq<bv8>): nat { 30 * |t| }

  /** `r` is the least prime above `p`, or 0 when the table holds none. */
  ghost predicate IsNext(t: seq<bv8>, p: nat, r: nat) {
    && (r != 0 ==> Prime(r) && r > p && r < Limit(t))
    && forall q: nat :: Prime(q) && p < q && (r == 0 || q < r) ==> q >= Limit(t)
  }

  lemma ExactBit(t: seq<bv8>, x: nat)
    requires Exact(t) && x / 30 < |t| && Coprime30(x) && x > 1
    ensures Bit(t, x) <==> Prime(x)
  {
    assert InTable(t, x);
  }

  lemma NextOf(t: seq<bv8>, p: nat, r: nat)
    requires Exact(t) && p > 5
    requires r == 0 ==> forall y: nat | y > p && y / 30 < |t| && Coprime30(y) :: !Bit(t, y)
    requires r != 0 ==> r > p && Coprime30(r) && Bit(t, r) && forall y: nat | p < y < r && Coprime30(y) :: !Bit(t, y)
    ensures IsNext(t, p, r)
  {
    hide Bit, Coprime30, Prime;
    if r != 0 { assert r / 30 < |t| by { BitInTable(t, r); } ExactBit(t, r); }
    forall q: nat | Prime(q) && p < q && (r == 0 || q < r) && q < Limit(t) ensures false {
      CoprimePrime(q);
      ExactBit(t, q);
    }
  }

  lemma BitInTable(t: seq<bv8>, x: nat)
    requires Bit(t, x)
    ensures x / 30 < |t|
  {
  }

  lemma SmallPrimes()
    ensures Prime(2) && Prime(3) && Prime(5) && Prime(7) && !Prime(0) && !Prime(1) && !Prime(4) && !Prime(6)
  {
    Seven();
    assert Divides(2, 4) && Divides(2, 6);
  }

  /** The least prime above a prime, or above 0; 0 if the table does not reach it. */
  method NextPrime(pbits: array<bv8>, p: nat) returns (r: nat)
    requires Exact(pbits[..]) && pbits.Length > 0 && (p == 0 || Prime(p)) && p < Limit(pbits[..])
    ensures IsNext(pbits[..], p, r)
  {
    SmallPrimes();
    if p > 5 {
      CoprimePrime(p);
      r := NextBit(pbits, p);
      NextOf(pbits[..], p, r);
      return r;
    }
    hide Prime;
    if p == 2 { return 3; }
    if p == 3 { return 5; }
    if p == 5 { return 7; }
    return 2;
  }

  /** Whether `x` is prime; numbers from `maxPrime` on are tried by all primes. */
  method IsPrime(pbits: array<bv8>, maxPrime: nat, x: nat) returns (r: bool)
    requires Exact(pbits[..]) && 7 < maxPrime <= Limit(pbits[..]) && x < Limit(pbits[..]) * Limit(pbits[..])
    ensures r <==> Prime(x)
  {
    SmallPrimes();
    ghost var t := pbits[..];
    if x > 5 {
      if x < maxPrime {
        TableDecides(t, x);
        return pbits[x / 30] & BitPos(x % 30) != 0;
      }
      hide Prime, IsNext;
      var p := 2;
      ghost var tried := 2;
      while p != 0 && p * p <= x
        invariant p != 0 ==> p == tried && Prime(p) && p < Limit(t)
        invariant p == 0 ==> tried == Limit(t)
        invariant 2 <= tried <= Limit(t) && forall d: nat :: Prime(d) && d < tried ==> !Divides(d, x)
        decreases Limit(t) - tried
      {
        if x % p == 0 {
          NotPrime(p, x);
          return false;
        }
        ghost var was := p;
        p := NextPrime(pbits, p);
        TriedNext(t, was, p, x);
        tried := if p == 0 then Limit(t) else p;
      }
      PrimeByTrial(x, tried);
      return true;
    }
    return x == 2 || x == 3 || x == 5;
  }

  lemma TableDecides(t: seq<bv8>, x: nat)
    requires Exact(t) && 5 < x < Limit(t)
    ensures x / 30 < |t| && (t[x / 30] & BitPos(x % 30) != 0 <==> Prime(x))
  {
    CoprimePlace(x);
    if Coprime30(x) {
      ExactBit(t, x);
    } else {
      assert Divides(2, x) || Divides(3, x) || Divides(5, x);
    }
  }

  lemma NotPrime(p: nat, x: nat)
    requires Prime(p) && x % p == 0 && p * p <= x
    ensures !Prime(x)
  {
    MulMono(2, p, p);
    assert Divides(p, x) && p < x;
  }

  lemma TriedNext(t: seq<bv8>, p: nat, r: nat, x: nat)
    requires Prime(p) && p < Limit(t) && IsNext(t, p, r) && x % p != 0
    requires forall d: nat :: Prime(d) && d < p ==> !Divides(d, x)
    ensures r != 0 ==> Prime(r) && p < r < Limit(t)
    ensures forall d: nat :: Prime(d) && d < (if r == 0 then Limit(t) else r) ==> !Divides(d, x)
  {
  }

  // ----- factoring -----

  function Product(f: seq<nat>): nat { if f == [] then 1 else Product(f[..|f| - 1]) * f[|f| - 1] }

  /** Primes in order, all at most `p`. */
  ghost predicate Factors(f: seq<nat>, p: nat) {
    && (forall i :: 0 <= i < |f| ==> Prime(f[i]) && f[i] <= p)
    && forall i, j :: 0 <= i < j < |f| ==> f[i] <= f[j]
  }

  lemma ProductSnoc(f: seq<nat>, p: nat)
    ensures Product(f + [p]) == Product(f) * p
  {
    assert (f + [p])[..|f|] == f;
  }

  lemma {:induction false} ProductLarge(f: seq<nat>)
    requires forall i :: 0 <= i < |f| ==> f[i] > 1
    ensures Pow2(|f|) <= Product(f)
  {
    if f != [] {
      var n := |f| - 1;
      ProductLarge(f[..n]);
      MulMono(2, f[n], Product(f[..n]));
    }
  }

  lemma {:induction false} Pow2Mono(a: nat, b: nat)
    requires a <= b
    ensures Pow2(a) <= Pow2(b)
    decreases b
  {
    if a < b { Pow2Mono(a, b - 1); }
  }

  /** What is split off so far, and what is left: `m` has no prime factor below `p`. */
  ghost predicate Splitting(f: seq<nat>, p: nat, m: nat, n: nat) {
    m > 0 && Factors(f, p) && Product(f) * m == n && forall d: nat :: Prime(d) && d < p ==> !Divides(d, m)
  }

  /** There is room for one more factor. */
  lemma RoomLeft(f: seq<nat>, p: nat, m: nat, n: nat, size: nat)
    requires Splitting(f, p, m, n) && m > 1 && n < Pow2(size)
    ensures |f| < size
  {
    ProductLarge(f);
    MulMono(Pow2(|f|), Product(f), m);
    MulMono(2, m, Pow2(|f|));
    if |f| >= size { Pow2Mono(size, |f| + 1); }
  }

  lemma StillNone(p: nat, m: nat)
    requires m > 0 && Divides(p, m) && forall d: nat :: Prime(d) && d < p ==> !Divides(d, m)
    ensures m / p > 0 && forall d: nat :: Prime(d) && d < p ==> !Divides(d, m / p)
  {
    hide Prime;
    Quotient(p, m);
    assert Divides(m / p, m) by { DividesIff(m / p, m, p); }
    forall d: nat | Prime(d) && d < p ensures !Divides(d, m / p) {
      if Divides(d, m / p) { DividesTransitive(d, m / p, m); }
    }
  }

  lemma FactorsMore(f: seq<nat>, p: nat)
    requires Factors(f, p) && Prime(p)
    ensures Factors(f + [p], p)
  {
  }

  lemma SplitOff(f: seq<nat>, p: nat, m: nat, n: nat)
    requires Splitting(f, p, m, n) && Prime(p) && m % p == 0
    ensures m > 1 && 0 < m / p < m && Splitting(f + [p], p, m / p, n)
  {
    assert p > 1 && Divides(p, m);
    StillNone(p, m);
    Quotient(p, m);
    SplitFactor(f, p, m / p, m, n);
  }

  lemma SplitFactor(f: seq<nat>, p: nat, q: nat, m: nat, n: nat)
    requires Factors(f, p) && Product(f) * m == n && Prime(p) && m == q * p && q > 0
    ensures q < m && Factors(f + [p], p) && Product(f + [p]) * q == n
  {
    FactorsMore(f, p);
    ProductSnoc(f, p);
    MulMono(2, p, q);
    hide Factors, Product;
    Regrouped(Product(f), m, q, p);
  }

  lemma Regrouped(a: nat, m: nat, q: nat, p: nat)
    requires m == q * p
    ensures (a * p) * q == a * m
  {
    Associate(a, q, p);
    Swap(a, q, p);
  }

  lemma Swap(a: nat, b: nat, c: nat)
    ensures (a * b) * c == (a * c) * b
  {
  }

  lemma SplitNext(t: seq<bv8>, f: seq<nat>, p: nat, r: nat, m: nat, n: nat)
    requires Splitting(f, p, m, n) && IsNext(t, p, r) && p < Limit(t) && (p > 0 && Prime(p) ==> m % p != 0) && (p == 0 || Prime(p))
    ensures Splitting(f, if r == 0 then Limit(t) else r, m, n)
  {
  }

  /** What is left at the end is 1 or the last factor. */
  lemma SplitEnds(f: seq<nat>, p: nat, m: nat, n: nat)
    requires Splitting(f, p, m, n) && m < p * p
    ensures m == 1 ==> Product(f) == n
    ensures m > 1 ==> Factors(f + [m], m) && Product(f + [m]) == n
  {
    if m > 1 {
      PrimeByTrial(m, p);
      DividesIff(m, m, 1);
      ProductSnoc(f, m);
    }
  }

  lemma SplitStarts(n: nat)
    requires n > 0
    ensures Splitting([], 0, n, n)
  {
  }

  lemma OneFactor(f: seq<nat>, n: nat)
    requires f == [n]
    ensures Product(f) == n
  {
    assert f[..0] == [];
  }

  lemma NextRises(t: seq<bv8>, p: nat, r: nat)
    requires IsNext(t, p, r)
    ensures r != 0 ==> Prime(r) && p < r < Limit(t)
  {
  }

  lemma {:induction false} ProductPositive(f: seq<nat>)
    requires forall i :: 0 <= i < |f| ==> f[i] > 0
    ensures Product(f) >= 1
  {
    if f != [] { ProductPositive(f[..|f| - 1]); }
  }

  lemma SplitBelow(f: seq<nat>, p: nat, m: nat, n: nat)
    requires Splitting(f, p, m, n)
    ensures 1 <= m <= n
  {
    ProductPositive(f);
    MulMono(1, Product(f), m);
  }

  /** Divides by `p` as long as that leaves no rest. */
  method DivideOut(f: array<nat>, p: nat, count: nat, rest: nat, ghost n: nat) returns (i: nat, m: nat)
    requires count <= f.Length && Prime(p) && Splitting(f[..count], p, rest, n) && n < Pow2(f.Length)
    modifies f
    ensures i <= f.Length && m % p != 0 && Splitting(f[..i], p, m, n)
  {
    assert p > 1;
    hide Splitting, Prime;
    i, m := count, rest;
    while m % p == 0
      invariant i <= f.Length && Splitting(f[..i], p, m, n)
      decreases m
    {
      SplitOff(f[..i], p, m, n);
      RoomLeft(f[..i], p, m, n, f.Length);
      ghost var g := f[..i];
      m := m / p;
      f[i] := p;
      i := i + 1;
      assert f[..i] == g + [p];
    }
  }

  /** Splits off all prime factors but the last one. */
  method SplitAll(pbits: array<bv8>, n: nat, f: array<nat>) returns (i: nat, m: nat, ghost done: nat)
    requires Exact(pbits[..]) && pbits.Length > 0 && 1 <= n < Limit(pbits[..]) * Limit(pbits[..])
    requires n < Pow2(f.Length) && (f as object) != pbits
    modifies f
    ensures i <= f.Length && Splitting(f[..i], done, m, n) && m < done * done
  {
    ghost var t := pbits[..];
    SplitStarts(n);
    hide Splitting, Exact, IsNext, Prime, Product;
    var p := 0;
    i, m, done := 0, n, 0;
    assert f[..0] == [];
    while m >= p * p
      invariant 0 <= p < Limit(t) && p == done && (p == 0 || Prime(p)) && (p > 0 ==> m % p != 0) && i <= f.Length
      invariant Splitting(f[..i], done, m, n) && pbits[..] == t
      decreases Limit(t) - p
    {
      ghost var was := p;
      p := NextPrime(pbits, p);
      NextRises(t, was, p);
      SplitNext(t, f[..i], was, p, m, n);
      if p == 0 {
        done := Limit(t);
        SplitBelow(f[..i], done, m, n);
        return;
      }
      done := p;
      i, m := DivideOut(f, p, i, m, n);
    }
  }

  lemma Sorted(f: seq<nat>, p: nat, n: nat)
    requires Factors(f, p) && Product(f) == n
    ensures forall k :: 0 <= k < |f| ==> Prime(f[k])
    ensures forall j, k :: 0 <= j < k < |f| ==> f[j] <= f[k]
  {
  }

  /** All prime factors of `n` in order, each as often as it divides `n`. */
  method Decompose(pbits: array<bv8>, maxPrime: nat, n: nat, f: array<nat>) returns (i: nat)
    requires Exact(pbits[..]) && 7 < maxPrime <= Limit(pbits[..]) && 1 <= n < Limit(pbits[..]) * Limit(pbits[..])
    requires n < Pow2(f.Length) && (f as object) != pbits
    modifies f
    ensures i <= f.Length && Product(f[..i]) == n
    ensures forall k :: 0 <= k < i ==> Prime(f[..i][k])
    ensures forall j, k :: 0 <= j < k < i ==> f[..i][j] <= f[..i][k]
  {
    if n <= maxPrime {
      var prime := IsPrime(pbits, maxPrime, n);
      if prime {
        SplitStarts(n);
        RoomLeft([], 0, n, n, f.Length);
        f[0] := n;
        OneFactor(f[..1], n);
        return 1;
      }
    }
    hide Exact, Prime, Product, Factors;
    var m;
    ghost var done;
    i, m, done := SplitAll(pbits, n, f);
    ghost var g := f[..i];
    SplitEnds(g, done, m, n);
    if m > 1 {
      RoomLeft(g, done, m, n, f.Length);
      f[i] := m;
      i := i + 1;
      assert f[..i] == g + [m];
      done := m;
    }
    Sorted(f[..i], done, n);
  }
}
