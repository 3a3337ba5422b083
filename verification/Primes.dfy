/** Prime numbers. */
module Primes {
  import opened Arithmetic

  predicate Divides(d: nat, x: nat) { d > 0 && x % d == 0 }

  ghost predicate Prime(x: nat) { x > 1 && forall d: nat :: 1 < d < x ==> !Divides(d, x) }

  lemma DividesIff(d: nat, x: nat, q: nat)
    requires d > 0 && x == q * d
    ensures Divides(d, x) && x / d == q
  {
    DivMod(q, 0, d);
  }

  lemma Quotient(d: nat, x: nat)
    requires Divides(d, x)
    ensures x == (x / d) * d && (x > 0 ==> x / d > 0 && d <= x)
  {
    if x / d > 0 { MulMono(1, x / d, d); }
  }

  lemma DividesTransitive(d: nat, e: nat, x: nat)
    requires Divides(d, e) && Divides(e, x)
    ensures Divides(d, x)
  {
    Quotient(d, e);
    Quotient(e, x);
    Associate(x / e, e / d, d);
    DividesIff(d, x, (x / e) * (e / d));
  }

  lemma Associate(a: nat, b: nat, c: nat)
    ensures a * (b * c) == (a * b) * c
  {
  }

  /** The least divisor above 1, which is prime. */
  lemma LeastDivisor(x: nat) returns (p: nat)
    requires x > 1
    ensures Prime(p) && Divides(p, x) && forall d: nat :: 1 < d < p ==> !Divides(d, x)
    ensures p < x ==> p * p <= x
  {
    p := 2;
    assert Divides(x, x) by { DividesIff(x, x, 1); }
    while !Divides(p, x)
      invariant 1 < p <= x && forall d: nat :: 1 < d < p ==> !Divides(d, x)
      decreases x - p
    {
      p := p + 1;
    }
    forall d: nat | 1 < d < p ensures !Divides(d, p) {
      if Divides(d, p) { DividesTransitive(d, p, x); }
    }
    if p < x {
      Quotient(p, x);
      var q := x / p;
      if q < p {
        DividesIff(q, x, p);
      }
      if p <= q { MulMono(p, q, p); }
    }
  }

  /** Whoever has no divisor up to its root is prime. */
  lemma PrimeByTrial(x: nat, p: nat)
    requires x > 1 && x < p * p && forall d: nat :: Prime(d) && d < p ==> !Divides(d, x)
    ensures Prime(x)
  {
    var q := LeastDivisor(x);
    if q < x && q >= p { MulMono(p, q, q); MulMono(p, q, p); }
  }
}
