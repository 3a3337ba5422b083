/** Sieving the whole table, and what primality and factoring make of it. */
module PrimeTable {
  import opened Arithmetic
  import opened Primes
  import opened Wheel

  /** The numbers that the table has bits for. */
  predicate InTable(t: seq<bv8>, x: nat) { x / 30 < |t| && Coprime30(x) && x > 1 }

  /** No prime from 7 up to `s` divides `x`, unless it is `x`. */
  ghost predicate Survives(x: nat, s: nat) { forall d: nat :: 7 <= d < s && d != x && Prime(d) ==> !Divides(d, x) }

  /** All multiples of primes below `s` are struck. */
  ghost predicate Sieved(t: seq<bv8>, s: nat) { forall x: nat | InTable(t, x) :: Bit(t, x) <==> Survives(x, s) }

  /** The bits are those of the primes. */
  ghost predicate Exact(t: seq<bv8>) { forall x: nat | InTable(t, x) :: Bit(t, x) <==> Prime(x) }

  lemma CoprimePrime(x: nat)
    requires Prime(x) && x > 5
    ensures Coprime30(x) && x >= 7
  {
    assert !Divides(2, x) && !Divides(3, x) && !Divides(5, x);
  }

  lemma CoprimeDivisor(d: nat, x: nat)
    requires Divides(d, x) && Coprime30(x) && d > 1
    ensures Coprime30(d) && d >= 7
  {
    Quotient(d, x);
    CoprimeFactor(x / d, d);
  }

  lemma SievedOnce(before: seq<bv8>, t: seq<bv8>, s: nat)
    requires Prime(s) && s >= 7 && Sieved(before, s) && |t| == |before|
    requires forall x: nat | x / 30 < |t| && Coprime30(x) :: Bit(t, x) <==> Bit(before, x) && !(Divides(s, x) && x / s >= 7)
    ensures Sieved(t, s + 1)
  {
    hide Bit, Coprime30;
    forall x: nat | InTable(t, x) ensures Bit(t, x) <==> Survives(x, s + 1) {
      assert InTable(before, x);
      if Divides(s, x) {
        Quotient(s, x);
        if x == s { DividesIff(s, x, 1); } else {
          DividesIff(x / s, x, s);
          CoprimeDivisor(x / s, x);
        }
      }
    }
  }

  /** The next bit is the next prime. */
  lemma NextIsPrime(t: seq<bv8>, s: nat, x: nat)
    requires Prime(s) && s >= 7 && Sieved(t, s + 1) && x > s && InTable(t, x) && Bit(t, x)
    requires forall y: nat | s < y < x && Coprime30(y) :: !Bit(t, y)
    ensures Prime(x) && forall y: nat | s < y < x :: !Prime(y)
    ensures Sieved(t, x)
  {
    hide Bit, Coprime30;
    forall y: nat | s < y < x ensures !Prime(y) {
      if Prime(y) {
        PrimeBit(t, s, y);
      }
    }
    var d := LeastDivisor(x);
    CoprimeDivisor(d, x);
    forall z: nat | InTable(t, z) ensures Bit(t, z) <==> Survives(z, x) {
      if Survives(z, s + 1) {
        forall e: nat | 7 <= e < x && e != z && Prime(e) ensures !Divides(e, z) { assert e <= s; }
      }
    }
  }

  lemma PrimeBit(t: seq<bv8>, s: nat, q: nat)
    requires s >= 7 && Sieved(t, s + 1) && Prime(q) && q > s && q / 30 < |t|
    ensures InTable(t, q) && Coprime30(q) && Bit(t, q)
  {
    CoprimePrime(q);
    assert InTable(t, q) && Survives(q, s + 1);
  }

  lemma SurvivesIsPrime(x: nat, s: nat, n: nat)
    requires x > 1 && Coprime30(x) && x < n && forall d: nat :: Prime(d) && d >= s ==> d * d >= n
    ensures Survives(x, s) <==> Prime(x)
  {
    hide Coprime30, Divides;
    var d := LeastDivisor(x);
    CoprimeDivisor(d, x);
    if d == x {
      PrimeSurvives(x, s);
    } else {
      assert d < x by { Quotient(d, x); }
      assert d >= s ==> d * d >= n;
      assert d < s && Prime(d) && Divides(d, x);
    }
  }

  lemma PrimeSurvives(x: nat, s: nat)
    requires Prime(x)
    ensures Survives(x, s)
  {
    forall d: nat | 7 <= d < s && d != x && Prime(d) && Divides(d, x) ensures false { Quotient(d, x); }
  }

  /** Sieving by all primes up to the root of the table's size is enough. */
  lemma SievedIsExact(t: seq<bv8>, s: nat)
    requires Sieved(t, s) && forall d: nat :: Prime(d) && d >= s ==> d * d >= 30 * |t|
    ensures Exact(t)
  {
    hide Bit, Coprime30, Prime, Survives;
    forall x: nat | InTable(t, x) ensures Bit(t, x) <==> Prime(x) { SurvivesIsPrime(x, s, 30 * |t|); }
  }

  lemma FreshTable(t: seq<bv8>)
    requires forall i :: 0 <= i < |t| ==> t[i] == 255
    ensures Sieved(t, 7)
  {
    forall x: nat | InTable(t, x) ensures Bit(t, x) {
      CoprimePlace(x);
      assert (255 as bv8) & Mask(Place(x % 30)) != 0;
    }
  }

  lemma Seven()
    ensures Prime(7) && Prime(2) && Prime(3) && Prime(5)
  {
  }

  /**
   * Sieves by the primes up to `last`. The program's sizes meet the two conditions: there is a prime above
   * `last` in the table, and the squares of all primes above `last` are outside of it.
   */
  method Init(pbits: array<bv8>, last: nat, ghost q: nat)
    requires Prime(q) && q > last && q / 30 < pbits.Length
    requires forall d: nat :: Prime(d) && d > last ==> d * d >= 30 * pbits.Length
    modifies pbits
    ensures Exact(pbits[..])
  {
    hide Bit, Coprime30, Sieved, Prime, Exact, InTable, Divides;
    var i := 0;
    while i < pbits.Length
      invariant 0 <= i <= pbits.Length && forall k: nat | k < i :: pbits[k] == 255
    {
      pbits[i] := 255;
      i := i + 1;
    }
    var s := 7;
    FreshTable(pbits[..]);
    Seven();
    while s <= last
      invariant Prime(s) && s >= 7 && Sieved(pbits[..], s)
      decreases last + 1 - s
    {
      ghost var before := pbits[..];
      Sieve(pbits, s);
      SievedOnce(before, pbits[..], s);
      InRange(s, q, |before|);
      var next := NextBit(pbits, s);
      PrimeBit(pbits[..], s, q);
      NextInTable(pbits[..], s, next);
      s := next;
    }
    SievedIsExact(pbits[..], s);
  }

  lemma SmallDivisors()
    ensures forall d: nat | 2 <= d <= 256 :: 65537 % d != 0
  {
  }

  /** The first prime behind the last number that the program sieves by. */
  lemma FermatPrime()
    ensures Prime(65537) && !Prime(65536)
  {
    SmallDivisors();
    PrimeByTrial(65537, 257);
    assert Divides(2, 65536);
  }

  /** The program's sizes: numbers of 32 bits, 30 to a byte, sieved by the primes up to 65535. */
  lemma ProgramSizes(last: nat, bytes: nat)
    requires last == 65535 && bytes == 4294967295 / 30 + 1
    ensures Prime(65537) && 65537 > last && 65537 / 30 < bytes
    ensures forall d: nat :: Prime(d) && d > last ==> d * d >= 30 * bytes
  {
    FermatPrime();
    forall d: nat | Prime(d) && d > last ensures d * d >= 30 * bytes {
      assert d >= 65537;
      MulMono(65537, d, 65537);
      MulMono(65537, d, d);
    }
  }

  lemma InRange(s: nat, q: nat, n: nat)
    requires Prime(s) && s >= 7 && s < q && q / 30 < n
    ensures s / 30 < n && Coprime30(s)
  {
    CoprimePrime(s);
  }

  lemma NextInTable(t: seq<bv8>, s: nat, x: nat)
    requires Prime(s) && s >= 7 && Sieved(t, s + 1) && x > s && Coprime30(x) && Bit(t, x)
    requires forall y: nat | s < y < x && Coprime30(y) :: !Bit(t, y)
    ensures Prime(x) && Sieved(t, x)
  {
    NextIsPrime(t, s, x);
  }
}
