/** A table of the numbers coprime to 30, one byte for each 30 numbers, one bit for each residue. */
module Wheel {
  import opened Arithmetic
  import opened Primes

  const REM_NUM: seq<nat> := [1, 7, 11, 13, 17, 19, 23, 29]

  function Mask(j: nat): bv8 {
    if j == 0 then 1 else if j == 1 then 2 else if j == 2 then 4 else if j == 3 then 8
    else if j == 4 then 16 else if j == 5 then 32 else if j == 6 then 64 else if j == 7 then 128 else 0
  }

  /** The place of a residue, 8 if it is not coprime to 30. */
  function Place(r: nat): (j: nat)
    ensures j <= 8 && (j < 8 ==> REM_NUM[j] == r)
  {
    if r == 1 then 0 else if r == 7 then 1 else if r == 11 then 2 else if r == 13 then 3
    else if r == 17 then 4 else if r == 19 then 5 else if r == 23 then 6 else if r == 29 then 7 else 8
  }

  function BitPos(r: nat): bv8 { Mask(Place(r)) }

  predicate Coprime30(x: nat) { x % 2 != 0 && x % 3 != 0 && x % 5 != 0 }

  lemma CoprimePlace(x: nat)
    ensures Coprime30(x) <==> Place(x % 30) < 8
  {
    var q, r := x / 30, x % 30;
    SameRest(q, r, 2);
    SameRest(q, r, 3);
    SameRest(q, r, 5);
  }

  lemma SameRest(q: nat, r: nat, d: nat)
    requires d == 2 || d == 3 || d == 5
    ensures (30 * q + r) % d == r % d
  {
    DivMod((30 / d) * q + r / d, r % d, d);
  }

  predicate Bit(t: seq<bv8>, x: nat) { x / 30 < |t| && t[x / 30] & BitPos(x % 30) != 0 }

  lemma MaskClears(v: bv8, j: nat, k: nat)
    requires j < 8 && k <= 8
    ensures v & !Mask(k) & Mask(j) != 0 <==> j != k && v & Mask(j) != 0
  {
  }

  /** A byte below a bit has no bit from there on. */
  lemma NoneFrom(v: bv8, k: nat)
    requires k < 8
    ensures v < Mask(k) <==> forall j: nat | k <= j < 8 :: v & Mask(j) == 0
  {
    if v < Mask(k) {
      forall j: nat | k <= j < 8 ensures v & Mask(j) == 0 {}
    } else {
      SomeFrom(v, k);
    }
  }

  lemma SomeFrom(v: bv8, k: nat)
    requires k < 8 && v >= Mask(k)
    ensures exists j: nat | k <= j < 8 :: v & Mask(j) != 0
  {
    var j: nat := if v >= 128 then 7 else if v >= 64 then 6 else if v >= 32 then 5 else if v >= 16 then 4
      else if v >= 8 then 3 else if v >= 4 then 2 else if v >= 2 then 1 else 0;
    assert k <= j < 8 && v & Mask(j) != 0;
  }

  // ----- striking out multiples -----

  lemma CoprimeFactor(p: nat, k: nat)
    requires Coprime30(p * k)
    ensures Coprime30(k)
  {
    if k % 2 == 0 { MultipleOf(p, k, 2); }
    if k % 3 == 0 { MultipleOf(p, k, 3); }
    if k % 5 == 0 { MultipleOf(p, k, 5); }
  }

  lemma MultipleOf(p: nat, k: nat, d: nat)
    requires d > 0 && k % d == 0
    ensures (p * k) % d == 0
  {
    Associate(p, k / d, d);
    DivMod(p * (k / d), 0, d);
  }

  /** `x` is a multiple of `p` by a number from 7 up to `m`. */
  predicate Struck(p: nat, x: nat, m: nat) { Divides(p, x) && 7 <= x / p < m }

  /** The coprime number behind the one with residue `REM_NUM[i]`. */
  function NextCoprime(c: nat, i: nat): nat
    requires i < 8
  {
    if i < 7 then 30 * c + REM_NUM[i + 1] else 30 * (c + 1) + 1
  }

  lemma NoneBetween(c: nat, i: nat, k: nat)
    requires i < 8 && 30 * c + REM_NUM[i] < k < NextCoprime(c, i)
    ensures !Coprime30(k)
  {
    CoprimePlace(k);
    if i < 7 { DivMod(c, k - 30 * c, 30); } else { DivMod(c + 1, 0, 30); }
  }

  /** What has happened to the table when the multiples below `m` are struck. */
  ghost predicate StruckTo(before: seq<bv8>, t: seq<bv8>, p: nat, m: nat) {
    |t| == |before| && forall x: nat | x / 30 < |t| && Coprime30(x) :: Bit(t, x) <==> Bit(before, x) && !Struck(p, x, m)
  }

  lemma PlaceInjective(r: nat, s: nat)
    requires Place(r) < 8 && Place(r) == Place(s)
    ensures r == s
  {
  }

  lemma ByteStruck(v: bv8, r: nat, s: nat)
    requires Place(r) < 8
    ensures v & !BitPos(s) & BitPos(r) != 0 <==> r != s && v & BitPos(r) != 0
  {
    MaskClears(v, Place(r), Place(s));
    if Place(r) == Place(s) { PlaceInjective(r, s); }
  }

  lemma Strike(t: seq<bv8>, y: nat, x: nat)
    requires y / 30 < |t| && x / 30 < |t| && Coprime30(x)
    ensures Bit(t[y / 30 := t[y / 30] & !BitPos(y % 30)], x) <==> x != y && Bit(t, x)
  {
    CoprimePlace(x);
    hide BitPos, Coprime30;
    if x / 30 == y / 30 { ByteStruck(t[y / 30], x % 30, y % 30); }
  }

  lemma StruckNext(p: nat, x: nat, c: nat, i: nat)
    requires p > 0 && i < 8 && (c > 0 || i > 0) && Coprime30(x)
    ensures var m := 30 * c + REM_NUM[i]; Struck(p, x, NextCoprime(c, i)) <==> Struck(p, x, m) || x == p * m
  {
    var m := 30 * c + REM_NUM[i];
    if x == p * m { DividesIff(p, x, m); }
    if Divides(p, x) && m < x / p < NextCoprime(c, i) {
      Quotient(p, x);
      CoprimeFactor(p, x / p);
      NoneBetween(c, i, x / p);
    }
    if Divides(p, x) { Quotient(p, x); }
  }

  lemma StrikeStep(before: seq<bv8>, t: seq<bv8>, p: nat, c: nat, i: nat)
    requires p > 0 && i < 8 && (c > 0 || i > 0) && StruckTo(before, t, p, 30 * c + REM_NUM[i])
    requires (p * (30 * c + REM_NUM[i])) / 30 < |t|
    ensures var y := p * (30 * c + REM_NUM[i]);
      StruckTo(before, t[y / 30 := t[y / 30] & !BitPos(y % 30)], p, NextCoprime(c, i))
  {
    hide Coprime30, Struck, BitPos, Bit, NextCoprime;
    var y := p * (30 * c + REM_NUM[i]);
    var t1 := t[y / 30 := t[y / 30] & !BitPos(y % 30)];
    forall x: nat | x / 30 < |t1| && Coprime30(x)
      ensures Bit(t1, x) <==> Bit(before, x) && !Struck(p, x, NextCoprime(c, i))
    {
      StruckNext(p, x, c, i);
      Strike(t, y, x);
    }
  }

  /** Byte and residue of `p * (30 * c + r)`. */
  lemma ByteOf(p: nat, c: nat, r: nat)
    ensures (p * (30 * c + r)) / 30 == p * c + (p * r) / 30 && (p * (30 * c + r)) % 30 == (p * r) % 30
  {
    assert p * (30 * c + r) == 30 * (p * c) + p * r;
    DivMod(p * c + (p * r) / 30, (p * r) % 30, 30);
  }

  /** The byte of the `i`-th multiple of a row. */
  function ByteAt(p: nat, i: nat): nat
    requires i < 8
  {
    (p * REM_NUM[i]) / 30
  }

  /** How far the bytes of a row's multiples are apart. */
  predicate Offsets(p: nat, ofs: seq<int>) {
    |ofs| == 8 && ofs[0] == p - (ByteAt(p, 7) - ByteAt(p, 0)) && forall i :: 1 <= i < 8 ==> ofs[i] == ByteAt(p, i) - ByteAt(p, i - 1)
  }

  predicate Masks(p: nat, b: seq<bv8>) {
    |b| == 8 && forall i :: 0 <= i < 8 ==> b[i] == !BitPos((p * REM_NUM[i]) % 30)
  }

  predicate Bytes(p: nat, ofs: seq<int>) { |ofs| == 8 && forall i :: 0 <= i < 8 ==> ofs[i] == ByteAt(p, i) }

  /** The bits to clear and the bytes of the first row. */
  method Residues(p: nat, b: array<bv8>, ofs: array<int>)
    requires b.Length == ofs.Length == 8 && (b as object) != ofs
    modifies b, ofs
    ensures Masks(p, b[..]) && Bytes(p, ofs[..])
  {
    hide BitPos;
    var i := 0;
    while i < 8
      invariant 0 <= i <= 8
      invariant forall k: nat | k < i :: b[k] == !BitPos((p * REM_NUM[k]) % 30)
      invariant forall k: nat | k < i :: ofs[k] == ByteAt(p, k)
    {
      var q := REM_NUM[i] * p;
      assert q == p * REM_NUM[i];
      b[i] := !BitPos(q % 30);
      ofs[i] := q / 30;
      i := i + 1;
    }
  }

  /** From bytes to the distances between them. */
  method Differences(p: nat, ofs: array<int>)
    requires ofs.Length == 8 && Bytes(p, ofs[..])
    modifies ofs
    ensures Offsets(p, ofs[..])
  {
    hide ByteAt;
    assert forall k: nat | k <= 7 :: ofs[k] == ofs[..][k];
    Subtract(p, ofs);
    ofs[0] := p;
    var i := 1;
    while i < 8
      invariant 1 <= i <= 8 && ofs[0] == p - (ByteAt(p, i - 1) - ByteAt(p, 0))
      invariant forall k: nat | 1 <= k < 8 :: ofs[k] == Gap(p, k)
    {
      assert ofs[i] == Gap(p, i);
      ofs[0] := ofs[0] - ofs[i];
      i := i + 1;
    }
  }

  /** How far two neighbours of the first row are apart. */
  function Gap(p: nat, k: nat): int
    requires 1 <= k < 8
  {
    ByteAt(p, k) - ByteAt(p, k - 1)
  }

  method Subtract(p: nat, ofs: array<int>)
    requires ofs.Length == 8 && forall k: nat | k < 8 :: ofs[k] == ByteAt(p, k)
    modifies ofs
    ensures forall k: nat | 1 <= k < 8 :: ofs[k] == Gap(p, k)
  {
    hide ByteAt;
    var i := 7;
    while i != 0
      invariant 0 <= i < 8
      invariant forall k: nat | k <= i :: ofs[k] == ByteAt(p, k)
      invariant forall k: nat | i < k < 8 :: ofs[k] == Gap(p, k)
    {
      ofs[i] := ofs[i] - ofs[i - 1];
      i := i - 1;
    }
  }

  lemma NextByte(p: nat, c: nat, i: nat, ofs: seq<int>)
    requires i < 8 && Offsets(p, ofs)
    ensures var j := if i == 7 then 0 else i + 1;
      (p * NextCoprime(c, i)) / 30 == (p * (30 * c + REM_NUM[i])) / 30 + ofs[j]
  {
    ByteOf(p, c, REM_NUM[i]);
    if i < 7 {
      ByteOf(p, c, REM_NUM[i + 1]);
      assert ofs[i + 1] == ByteAt(p, i + 1) - ByteAt(p, i);
    } else {
      ByteOf(p, c + 1, 1);
      assert p * (c + 1) == p * c + p;
    }
  }

  lemma MaskAt(p: nat, c: nat, i: nat, b: seq<bv8>)
    requires i < 8 && Masks(p, b)
    ensures b[i] == !BitPos((p * (30 * c + REM_NUM[i])) % 30)
  {
    hide BitPos;
    ByteOf(p, c, REM_NUM[i]);
  }

  lemma StruckStarts(t: seq<bv8>, p: nat)
    ensures StruckTo(t, t, p, 7)
  {
  }

  /** A table struck up to its end. */
  lemma StruckEnds(before: seq<bv8>, t: seq<bv8>, p: nat, m: nat)
    requires p > 0 && StruckTo(before, t, p, m) && (p * m) / 30 >= |t|
    ensures |t| == |before|
    ensures forall x: nat | x / 30 < |t| && Coprime30(x) :: Bit(t, x) <==> Bit(before, x) && !(Divides(p, x) && x / p >= 7)
  {
    hide Coprime30, Bit;
    forall x: nat | x / 30 < |t| && Divides(p, x) && x / p >= m ensures false {
      Quotient(p, x);
      MulMono(m, x / p, p);
    }
  }

  /** The multiples below the next one to strike are struck. */
  ghost predicate Row(before: seq<bv8>, t: seq<bv8>, p: nat, c: nat, i: nat, q: nat) {
    && i < 8 && (c > 0 || i > 0) && q == (p * (30 * c + REM_NUM[i])) / 30
    && StruckTo(before, t, p, 30 * c + REM_NUM[i])
  }

  function RowAfter(c: nat, i: nat): nat { if i == 7 then c + 1 else c }

  function IndexAfter(i: nat): nat { if i == 7 then 0 else i + 1 }

  lemma RowMoves(p: nat, c: nat, i: nat, q: nat, ofs: seq<int>)
    requires p > 0 && i < 8 && q == (p * (30 * c + REM_NUM[i])) / 30 && Offsets(p, ofs)
    ensures NextCoprime(c, i) == 30 * RowAfter(c, i) + REM_NUM[IndexAfter(i)]
    ensures q + ofs[IndexAfter(i)] == (p * NextCoprime(c, i)) / 30
    ensures p * (30 * c + REM_NUM[i]) < p * NextCoprime(c, i) && p * (30 * c + REM_NUM[i]) < 30 * (q + 1)
  {
    hide Offsets;
    NextByte(p, c, i, ofs);
    assert NextCoprime(c, i) > 30 * c + REM_NUM[i];
    Increases(p, 30 * c + REM_NUM[i], NextCoprime(c, i));
  }

  lemma RowNext(before: seq<bv8>, t: seq<bv8>, p: nat, c: nat, i: nat, q: nat, b: seq<bv8>, ofs: seq<int>)
    requires p > 0 && Row(before, t, p, c, i, q) && q < |t| && Masks(p, b) && Offsets(p, ofs)
    ensures q + ofs[IndexAfter(i)] >= 0
    ensures Row(before, t[q := t[q] & b[i]], p, RowAfter(c, i), IndexAfter(i), q + ofs[IndexAfter(i)])
    ensures p * (30 * c + REM_NUM[i]) < p * (30 * RowAfter(c, i) + REM_NUM[IndexAfter(i)])
    ensures p * (30 * c + REM_NUM[i]) < 30 * |t|
  {
    hide StruckTo, BitPos, Masks, Offsets, NextCoprime;
    RowMoves(p, c, i, q, ofs);
    MaskAt(p, c, i, b);
    StrikeStep(before, t, p, c, i);
    assert i == 7 ==> RowAfter(c, i) > 0;
  }

  lemma Increases(p: nat, m: nat, k: nat)
    requires p > 0 && m < k
    ensures p * m < p * k
  {
    MulMono(m + 1, k, p);
  }

  /** Clears the bits of the multiples of `p` by the coprime numbers from 7 on. */
  method Sieve(pbits: array<bv8>, p: nat)
    requires p > 0
    modifies pbits
    ensures forall x: nat | x / 30 < pbits.Length && Coprime30(x) ::
      Bit(pbits[..], x) <==> old(Bit(pbits[..], x)) && !(Divides(p, x) && x / p >= 7)
  {
    hide StruckTo, Bit, BitPos, Coprime30, Divides, Offsets, Masks, Bytes;
    ghost var before := pbits[..];
    var b, ofs := new bv8[8], new int[8];
    Residues(p, b, ofs);
    Differences(p, ofs);
    StruckStarts(before, p);
    SieveRows(pbits, p, b, ofs, before);
  }

  /** Strikes row by row, as far apart as the offsets say. */
  method SieveRows(pbits: array<bv8>, p: nat, b: array<bv8>, ofs: array<int>, ghost before: seq<bv8>)
    requires p > 0 && Masks(p, b[..]) && Offsets(p, ofs[..]) && pbits != b && (pbits as object) != ofs
    requires StruckTo(before, pbits[..], p, 7)
    modifies pbits
    ensures |before| == pbits.Length
    ensures forall x: nat | x / 30 < pbits.Length && Coprime30(x) ::
      Bit(pbits[..], x) <==> Bit(before, x) && !(Divides(p, x) && x / p >= 7)
  {
    hide StruckTo, Bit, BitPos, Coprime30, Divides, Row;
    var q, i := (7 * p) / 30, 1;
    ghost var c, bs, os := 0, b[..], ofs[..];
    RowStarts(before, pbits[..], p, q);
    while q < pbits.Length
      invariant 0 <= i < 8 && c >= 0 && q >= 0 && Row(before, pbits[..], p, c, i, q)
      decreases 30 * pbits.Length - p * (30 * c + REM_NUM[i])
    {
      ghost var t := pbits[..];
      RowNext(before, t, p, c, i, q, bs, os);
      pbits[q] := pbits[q] & b[i];
      assert pbits[..] == t[q := t[q] & bs[i]];
      c, i := RowAfter(c, i), IndexAfter(i);
      q := q + ofs[i];
    }
    RowEnds(before, pbits[..], p, c, i, q);
  }

  lemma RowStarts(before: seq<bv8>, t: seq<bv8>, p: nat, q: nat)
    requires StruckTo(before, t, p, 7) && q == (7 * p) / 30
    ensures Row(before, t, p, 0, 1, q)
  {
    hide StruckTo;
    assert p * (30 * 0 + REM_NUM[1]) == 7 * p;
  }

  lemma RowEnds(before: seq<bv8>, t: seq<bv8>, p: nat, c: nat, i: nat, q: nat)
    requires p > 0 && Row(before, t, p, c, i, q) && q >= |t|
    ensures |t| == |before|
    ensures forall x: nat | x / 30 < |t| && Coprime30(x) :: Bit(t, x) <==> Bit(before, x) && !(Divides(p, x) && x / p >= 7)
  {
    hide StruckTo, Bit, Coprime30, Divides;
    StruckEnds(before, t, p, 30 * c + REM_NUM[i]);
  }

  // ----- the next bit -----

  lemma ShiftMask(j: nat)
    requires j < 8
    ensures Mask(j) << 1 == Mask(j + 1) && (Mask(j) << 1 == 0 <==> j == 7)
  {
  }

  lemma MaskIncreases(j: nat, k: nat)
    requires j < 8 && k < 8
    ensures Mask(j) < Mask(k) <==> j < k
  {
  }

  lemma PlaceIncreases(r: nat, s: nat)
    requires r < s < 30 && Place(s) < 8 && Place(r) < 8
    ensures Place(r) < Place(s)
  {
  }

  /** No bit of a number above `p` in the bytes before `addr`, nor in byte `addr` before place `k`. */
  ghost predicate NoneUpTo(t: seq<bv8>, p: nat, addr: nat, k: nat) {
    forall y: nat | y > p && y / 30 < |t| && Coprime30(y) && (y / 30 < addr || (y / 30 == addr && Place(y % 30) < k)) :: !Bit(t, y)
  }

  lemma NoneStarts(t: seq<bv8>, p: nat)
    requires Coprime30(p)
    ensures Place(p % 30) < 8 && NoneUpTo(t, p, p / 30, Place(p % 30) + 1)
  {
    CoprimePlace(p);
    forall y: nat | y > p && y / 30 == p / 30 && Coprime30(y) ensures Place(y % 30) > Place(p % 30) {
      CoprimePlace(y);
      PlaceIncreases(p % 30, y % 30);
    }
  }

  lemma NoneInByte(t: seq<bv8>, p: nat, addr: nat, k: nat)
    requires addr < |t| && NoneUpTo(t, p, addr, k) && (k < 8 ==> t[addr] < Mask(k))
    ensures NoneUpTo(t, p, addr + 1, 0)
  {
    if k < 8 { NoneFrom(t[addr], k); }
    forall y: nat | y > p && y / 30 == addr && Coprime30(y) ensures !Bit(t, y) { CoprimePlace(y); }
  }

  lemma NoneAtPlaces(t: seq<bv8>, p: nat, addr: nat, k: nat, r: nat)
    requires addr < |t| && k <= r < 8 && NoneUpTo(t, p, addr, k) && forall j: nat | k <= j < r :: t[addr] & Mask(j) == 0
    ensures NoneUpTo(t, p, addr, r)
  {
    hide Mask;
  }

  lemma NumberAt(addr: nat, k: nat, x: nat)
    requires k < 8 && x == addr * 30 + REM_NUM[k]
    ensures x / 30 == addr && Place(x % 30) == k && Coprime30(x)
  {
    DivMod(addr, REM_NUM[k], 30);
    CoprimePlace(x);
  }

  /** Coprime numbers of one byte are ordered as their places are. */
  lemma PlaceOrder(x: nat, y: nat)
    requires Coprime30(x) && Coprime30(y) && x / 30 == y / 30
    ensures Place(x % 30) < Place(y % 30) <==> x < y
  {
    CoprimePlace(x);
    CoprimePlace(y);
    hide Coprime30;
    if x % 30 < y % 30 { PlaceIncreases(x % 30, y % 30); }
    if y % 30 < x % 30 { PlaceIncreases(y % 30, x % 30); }
  }

  lemma FoundBit(t: seq<bv8>, p: nat, addr: nat, k: nat, x: nat)
    requires addr < |t| && k < 8 && NoneUpTo(t, p, addr, k) && t[addr] & Mask(k) != 0 && x == addr * 30 + REM_NUM[k]
    requires Coprime30(p) && (addr > p / 30 || (addr == p / 30 && k > Place(p % 30)))
    ensures Bit(t, x) && Coprime30(x) && x > p && x / 30 == addr
    ensures forall y: nat | p < y < x && Coprime30(y) :: !Bit(t, y)
  {
    NumberAt(addr, k, x);
    hide Mask, Place, Coprime30;
    forall y: nat | p < y < x && Coprime30(y) ensures !Bit(t, y) {
      if y / 30 == addr { PlaceOrder(y, x); }
    }
    if addr == p / 30 { PlaceOrder(p, x); }
  }

  /** The bit behind the one of `p`, which is no bit at all behind the last one. */
  method BitAbove(p: nat) returns (bits: bv8, rem: nat)
    requires Place(p % 30) < 8
    ensures bits == Mask(Place(p % 30) + 1) && rem < 8 && (Place(p % 30) < 7 ==> rem == Place(p % 30) + 1)
  {
    var j := Place(p % 30);
    hide Place;
    bits := BitPos(p % 30) << 1;
    ShiftMask(j);
    rem := 0;
    hide Mask;
    if j == 7 { NoMask(rem); } else { MaskIncreases(rem, j + 1); }
    while Mask(rem) < bits
      invariant 0 <= rem < 8 && (if j == 7 then rem == 0 && !(Mask(rem) < bits) else rem <= j + 1)
      invariant j < 7 ==> (Mask(rem) < bits <==> rem < j + 1)
    {
      rem := rem + 1;
      MaskIncreases(rem, j + 1);
    }
  }

  lemma NoMask(j: nat)
    ensures !(Mask(j) < Mask(8))
  {
  }

  /** The lowest bit of a byte from `from` on. */
  method LowestBit(v: bv8, from: bv8, place: nat) returns (rem: nat)
    requires place < 8 && from == Mask(place) && v >= from
    ensures place <= rem < 8 && v & Mask(rem) != 0 && forall j: nat | place <= j < rem :: v & Mask(j) == 0
  {
    var bits := from;
    rem := place;
    SomeFrom(v, place);
    while v & bits == 0
      invariant place <= rem < 8 && bits == Mask(rem) && forall j: nat | place <= j < rem :: v & Mask(j) == 0
      decreases 8 - rem
    {
      ShiftMask(rem);
      rem := rem + 1;
      bits := bits << 1;
    }
  }

  /** Goes on to the first byte that has a bit from a place on; 8 is behind the last place. */
  method SkipBytes(pbits: array<bv8>, p: nat, bits0: bv8, rem0: nat) returns (addr: nat, bits: bv8, rem: nat)
    requires p / 30 < pbits.Length && rem0 < 8 && Place(p % 30) < 8 && NoneUpTo(pbits[..], p, p / 30, Place(p % 30) + 1)
    requires bits0 == Mask(Place(p % 30) + 1) && (Place(p % 30) < 7 ==> rem0 == Place(p % 30) + 1)
    ensures addr <= pbits.Length && (addr < pbits.Length ==> rem < 8 && bits == Mask(rem) && pbits[addr] >= bits)
    ensures NoneUpTo(pbits[..], p, addr, if addr < pbits.Length then rem else 0)
    ensures addr > p / 30 || (addr == p / 30 && rem > Place(p % 30))
  {
    hide Mask, Place, NoneUpTo;
    NoBits();
    ghost var t, j, k := pbits[..], Place(p % 30), Place(p % 30) + 1;
    addr, bits, rem := p / 30, bits0, rem0;
    while pbits[addr] < bits || bits == 0
      invariant p / 30 <= addr < |t| && rem < 8 && 0 <= k <= 8 && bits == Mask(k) && (k < 8 ==> rem == k)
      invariant NoneUpTo(t, p, addr, k) && (addr == p / 30 ==> k == j + 1)
      decreases |t| - addr
    {
      NoneInByte(t, p, addr, k);
      addr := addr + 1;
      bits, rem, k := 1, 0, 0;
      if addr >= pbits.Length { return; }
    }
  }

  /** The least number above `p` whose bit is set, or 0. */
  method NextBit(pbits: array<bv8>, p: nat) returns (x: nat)
    requires p / 30 < pbits.Length && Coprime30(p)
    ensures x == 0 ==> forall y: nat | y > p && y / 30 < pbits.Length && Coprime30(y) :: !Bit(pbits[..], y)
    ensures x != 0 ==> x > p && Coprime30(x) && Bit(pbits[..], x) && forall y: nat | p < y < x && Coprime30(y) :: !Bit(pbits[..], y)
  {
    ghost var t := pbits[..];
    NoneStarts(t, p);
    var bits, rem := BitAbove(p);
    hide Coprime30, Bit, Mask, Place, NoneUpTo;
    var addr;
    addr, bits, rem := SkipBytes(pbits, p, bits, rem);
    if addr >= pbits.Length {
      NoneAtAll(t, p);
      return 0;
    }
    var r := LowestBit(pbits[addr], bits, rem);
    x := addr * 30 + REM_NUM[r];
    FoundLowest(t, p, addr, rem, r, x);
  }

  lemma FoundLowest(t: seq<bv8>, p: nat, addr: nat, k: nat, r: nat, x: nat)
    requires addr < |t| && k <= r < 8 && NoneUpTo(t, p, addr, k) && t[addr] & Mask(r) != 0 && x == addr * 30 + REM_NUM[r]
    requires forall j: nat | k <= j < r :: t[addr] & Mask(j) == 0
    requires Coprime30(p) && (addr > p / 30 || (addr == p / 30 && k > Place(p % 30)))
    ensures Bit(t, x) && Coprime30(x) && x > p
    ensures forall y: nat | p < y < x && Coprime30(y) :: !Bit(t, y)
  {
    hide Coprime30, Bit, Mask, Place, NoneUpTo;
    NoneAtPlaces(t, p, addr, k, r);
    FoundBit(t, p, addr, r, x);
  }

  lemma NoneAtAll(t: seq<bv8>, p: nat)
    requires NoneUpTo(t, p, |t|, 0)
    ensures forall y: nat | y > p && y / 30 < |t| && Coprime30(y) :: !Bit(t, y)
  {
    hide Bit, Coprime30;
  }

  lemma NoBits()
    ensures Mask(0) == 1 && forall k: nat :: k <= 8 ==> (Mask(k) == 0 <==> k == 8)
  {
  }
}
