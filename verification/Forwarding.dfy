/** Loads that get their bytes from an earlier store or memset. */
module Forwarding {
  import opened Arithmetic

  type Bytes = seq<nat>

  predicate IsBytes(b: Bytes) { forall i :: 0 <= i < |b| ==> b[i] < 256 }

  // ----- integers in memory -----

  /** The `n` lowest bytes of `v`, the lowest of them first. */
  function Little(n: nat, v: nat): (b: Bytes)
    ensures |b| == n && IsBytes(b)
  {
    if n == 0 then [] else [v % 256] + Little(n - 1, v / 256)
  }

  function Reversed(b: Bytes): (r: Bytes)
    ensures |r| == |b| && forall i :: 0 <= i < |b| ==> r[i] == b[|b| - 1 - i]
  {
    seq(|b|, i requires 0 <= i < |b| => b[|b| - 1 - i])
  }

  /** How an integer of `n` bytes lies in memory. */
  function Encode(littleEndian: bool, n: nat, v: nat): (b: Bytes)
    ensures |b| == n
  {
    if littleEndian then Little(n, v) else Reversed(Little(n, v))
  }

  function FromLittle(b: Bytes): nat { if b == [] then 0 else b[0] + 256 * FromLittle(b[1..]) }

  /** The integer that bytes in memory stand for. */
  function Decode(littleEndian: bool, b: Bytes): nat { if littleEndian then FromLittle(b) else FromLittle(Reversed(b)) }

  lemma Pow2Byte(n: nat)
    requires n > 0
    ensures Pow2(8 * n) == 256 * Pow2(8 * (n - 1))
  {
    Pow2Add(8, 8 * (n - 1));
    assert Pow2(8) == 256;
  }

  lemma DivChain(v: nat, a: nat, b: nat)
    requires a > 0 && b > 0
    ensures a * b > 0 && Div(v, a * b) == Div(v / a, b) && Mod(v, a * b) == v % a + a * Mod(v / a, b)
  {
    var q, r := v / a, v % a;
    var p, s := q / b, q % b;
    DivIs(v, a);
    DivIs(q, b);
    ThreeParts(v, a, b, q, r, p, s);
  }

  lemma DivIs(v: nat, a: nat)
    requires a > 0
    ensures v == (v / a) * a + v % a
  {
  }

  lemma ThreeParts(v: nat, a: nat, b: nat, q: nat, r: nat, p: nat, s: nat)
    requires v == q * a + r && q == p * b + s && r < a && s < b
    ensures a * b > 0 && v / (a * b) == p && v % (a * b) == r + a * s
  {
    Regroup(p, a, b, s, r);
    TwoDigits(p, a, b, s, r);
  }

  lemma TwoDigits(p: nat, a: nat, b: nat, s: nat, r: nat)
    requires r < a && s < b
    ensures a * b > 0 && (p * (a * b) + (a * s + r)) / (a * b) == p && (p * (a * b) + (a * s + r)) % (a * b) == a * s + r
  {
    MulMono(s + 1, b, a);
    assert (s + 1) * a == a * s + a && b * a == a * b;
    DivMod(p, a * s + r, a * b);
  }

  lemma Regroup(p: nat, a: nat, b: nat, s: nat, r: nat)
    ensures (p * b + s) * a + r == p * (a * b) + (a * s + r)
  {
    assert (p * b + s) * a == (p * b) * a + s * a && (p * b) * a == p * (b * a) && b * a == a * b;
  }

  function Div(v: nat, d: nat): nat
    requires d > 0
  {
    v / d
  }

  function Mod(v: nat, d: nat): nat
    requires d > 0
  {
    v % d
  }

  /** A logical shift to the right. */
  function Shifted(v: nat, bits: nat): nat { Div(v, Pow2(bits)) }

  /** The lowest bits. */
  function Cut(v: nat, bits: nat): nat { Mod(v, Pow2(bits)) }

  lemma ShiftByte(v: nat, o: nat)
    requires o > 0
    ensures Shifted(v, 8 * o) == Shifted(v / 256, 8 * (o - 1))
  {
    Pow2Byte(o);
    hide Pow2, Div, Mod;
    DivChain(v, 256, Pow2(8 * (o - 1)));
  }

  lemma CutByte(v: nat, n: nat)
    requires n > 0
    ensures Cut(v, 8 * n) == v % 256 + 256 * Cut(v / 256, 8 * (n - 1))
  {
    Pow2Byte(n);
    hide Pow2, Div, Mod;
    DivChain(v, 256, Pow2(8 * (n - 1)));
  }

  lemma ShiftNothing(v: nat)
    ensures Shifted(v, 8 * 0) == v && Cut(v, 8 * 0) == 0
  {
    assert Pow2(8 * 0) == 1;
  }

  /** Encoding and decoding keeps the lowest bytes. */
  lemma {:induction false} LittleDecodes(n: nat, v: nat)
    ensures FromLittle(Little(n, v)) == Cut(v, 8 * n)
  {
    hide Cut;
    if n > 0 {
      LittleDecodes(n - 1, v / 256);
      assert Little(n, v)[1..] == Little(n - 1, v / 256);
      CutByte(v, n);
    } else {
      ShiftNothing(v);
    }
  }

  /** A slice of an integer's bytes is the integer shifted and cut. */
  lemma {:induction false} LittleSlice(n: nat, v: nat, o: nat, l: nat)
    requires o + l <= n
    ensures Little(n, v)[o..o + l] == Little(l, Shifted(v, 8 * o))
    decreases n
  {
    hide Shifted;
    if o > 0 {
      LittleSlice(n - 1, v / 256, o - 1, l);
      assert Little(n, v)[o..o + l] == Little(n - 1, v / 256)[o - 1..o - 1 + l];
      ShiftByte(v, o);
    } else {
      ShiftNothing(v);
      ShiftNothing(v / 256);
      if l > 0 {
        LittleSlice(n - 1, v / 256, 0, l - 1);
        assert Little(n, v)[..l] == [v % 256] + Little(n - 1, v / 256)[..l - 1];
      }
    }
  }

  lemma ReversedSlice(b: Bytes, o: nat, l: nat)
    requires o + l <= |b|
    ensures Reversed(b)[o..o + l] == Reversed(b[|b| - l - o..|b| - o])
  {
  }

  lemma ReversedTwice(b: Bytes)
    ensures Reversed(Reversed(b)) == b
  {
  }

  // ----- what a load sees of a store -----

  /** The part of a store's bytes that a load reads. */
  predicate Contained(storeOffset: int, storeSize: nat, loadOffset: int, loadSize: nat) {
    storeOffset <= loadOffset && loadOffset + loadSize <= storeOffset + storeSize
  }

  /** The stored integer, shifted so that the load's bits are lowest, and cut. */
  function StoreValueForLoad(v: nat, storeSize: nat, offset: nat, loadSize: nat, littleEndian: bool): nat
    requires offset + loadSize <= storeSize
  {
    var shift := if littleEndian then offset * 8 else (storeSize - loadSize - offset) * 8;
    var shifted := if shift != 0 then Shifted(v, shift) else v;
    if loadSize != storeSize then Cut(shifted, loadSize * 8) else shifted
  }

  /** The forwarded value is what the load reads from the bytes of the store, in both byte orders. */
  lemma StoreForwards(v: nat, storeSize: nat, offset: nat, loadSize: nat, littleEndian: bool)
    requires offset + loadSize <= storeSize && v < Pow2(8 * storeSize)
    ensures StoreValueForLoad(v, storeSize, offset, loadSize, littleEndian)
      == Decode(littleEndian, Encode(littleEndian, storeSize, v)[offset..offset + loadSize])
  {
    hide Little, FromLittle, Pow2, Shifted, Cut;
    var o := if littleEndian then offset else storeSize - loadSize - offset;
    LittleSlice(storeSize, v, o, loadSize);
    LittleDecodes(loadSize, Shifted(v, 8 * o));
    ShiftNothing(v);
    if !littleEndian {
      ReversedSlice(Little(storeSize, v), offset, loadSize);
      ReversedTwice(Little(loadSize, Shifted(v, 8 * o)));
    }
    if loadSize == storeSize { CutNothing(v, 8 * storeSize); }
  }

  lemma CutNothing(v: nat, bits: nat)
    requires v < Pow2(bits)
    ensures Cut(v, bits) == v
  {
    hide Pow2, Mod;
    SmallMod(v, Pow2(bits));
  }

  lemma SmallMod(v: nat, m: nat)
    requires v < m
    ensures Mod(v, m) == v
  {
  }

  // ----- which writes a load can read from -----

  const TWO_TO_THE_64 := 0x1_0000_0000_0000_0000

  /** A 64-bit sum as the unsigned number that the comparison takes it for. */
  function Unsigned(x: int): nat { x % TWO_TO_THE_64 }

  predicate Signed(x: int) { -TWO_TO_THE_64 <= 2 * x < TWO_TO_THE_64 }

  /** Whether load and write have no byte in common. */
  predicate Apart(storeOffset: int, storeSize: nat, loadOffset: int, loadSize: nat) {
    if storeOffset < loadOffset then storeOffset + storeSize <= loadOffset else loadOffset + loadSize <= storeOffset
  }

  /** The byte of the write where the load begins, or -1 to give up. */
  function Analyze(aggregate: bool, sameBase: bool, storeOffset: int, writeBits: nat, loadOffset: int, loadBits: nat): int {
    if aggregate || !sameBase || writeBits % 8 != 0 || loadBits % 8 != 0 then -1 else
    var storeSize, loadSize := writeBits / 8, loadBits / 8;
    if Apart(storeOffset, storeSize, loadOffset, loadSize) then -1
    else if storeOffset > loadOffset || Unsigned(storeOffset + storeSize) < Unsigned(loadOffset + loadSize) then -1
    else loadOffset - storeOffset
  }

  /** The offsets of a write and a load that the program's arithmetic can express. */
  predicate Expressible(storeOffset: int, writeBits: nat, loadOffset: int, loadBits: nat) {
    && Signed(storeOffset) && Signed(storeOffset + writeBits / 8)
    && Signed(loadOffset) && Signed(loadOffset + loadBits / 8)
  }

  /** The write ends below the base and the load does not: compared as unsigned numbers, their ends are in the wrong order. */
  predicate EndsAcross(storeOffset: int, writeBits: nat, loadOffset: int, loadBits: nat) {
    storeOffset + writeBits / 8 < 0 <= loadOffset + loadBits / 8
  }

  lemma UnsignedOrder(x: int, y: int)
    requires Signed(x) && Signed(y)
    ensures Unsigned(x) < Unsigned(y) <==> if x < 0 <==> y < 0 then x < y else y < 0
  {
    UnsignedIs(x);
    UnsignedIs(y);
  }

  lemma UnsignedIs(x: int)
    requires Signed(x)
    ensures Unsigned(x) == if x < 0 then x + TWO_TO_THE_64 else x
  {
  }

  /** An answer is right unless the ends lie across the base, and then every answer is wrong. */
  lemma AnalyzeIsRight(aggregate: bool, sameBase: bool, storeOffset: int, writeBits: nat, loadOffset: int, loadBits: nat)
    requires Expressible(storeOffset, writeBits, loadOffset, loadBits)
    requires Analyze(aggregate, sameBase, storeOffset, writeBits, loadOffset, loadBits) != -1
    ensures writeBits % 8 == 0 && loadBits % 8 == 0 && sameBase && !aggregate
    ensures Analyze(aggregate, sameBase, storeOffset, writeBits, loadOffset, loadBits) == loadOffset - storeOffset
    ensures Contained(storeOffset, writeBits / 8, loadOffset, loadBits / 8)
      <==> !EndsAcross(storeOffset, writeBits, loadOffset, loadBits)
  {
    UnsignedOrder(storeOffset + writeBits / 8, loadOffset + loadBits / 8);
  }

  /** Such an answer: four bytes stored from -8 on, eight bytes loaded from -6 on. */
  lemma AnalyzeIsWrongOnce()
    ensures Analyze(false, true, -8, 32, -6, 64) == 2 && !Contained(-8, 4, -6, 8)
  {
    UnsignedOrder(-4, 2);
  }

  /** Contained loads are given up only when the write ends behind the base and the load before it. */
  lemma AnalyzeFinds(storeOffset: int, writeBits: nat, loadOffset: int, loadBits: nat)
    requires Expressible(storeOffset, writeBits, loadOffset, loadBits)
    requires writeBits % 8 == 0 && loadBits % 8 == 0 && loadBits > 0
    requires Contained(storeOffset, writeBits / 8, loadOffset, loadBits / 8)
    ensures Analyze(false, true, storeOffset, writeBits, loadOffset, loadBits) == -1
      <==> loadOffset + loadBits / 8 < 0 <= storeOffset + writeBits / 8
  {
    UnsignedOrder(storeOffset + writeBits / 8, loadOffset + loadBits / 8);
  }

  // ----- memory -----

  type Memory = map<int, nat>

  predicate Has(mem: Memory, at: int, n: nat) { forall a | at <= a < at + n :: a in mem }

  function Read(mem: Memory, at: int, n: nat): (b: Bytes)
    requires Has(mem, at, n)
    ensures |b| == n
  {
    seq(n, i requires 0 <= i < n => mem[at + i])
  }

  function Write(mem: Memory, at: int, b: Bytes): (m: Memory)
    ensures m.Keys == mem.Keys
  {
    map a | a in mem :: if at <= a < at + |b| then b[a - at] else mem[a]
  }

  lemma ReadWritten(mem: Memory, at: int, b: Bytes, from: int, n: nat)
    requires Has(mem, from, n) && at <= from && from + n <= at + |b|
    ensures Read(Write(mem, at, b), from, n) == b[from - at..from - at + n]
  {
  }

  /** A load that may read from a store gets the forwarded value. */
  lemma LoadAfterStore(mem: Memory, base: int, storeOffset: int, writeBits: nat, loadOffset: int, loadBits: nat, v: nat, little: bool)
    requires Expressible(storeOffset, writeBits, loadOffset, loadBits)
    requires !EndsAcross(storeOffset, writeBits, loadOffset, loadBits)
    requires Analyze(false, true, storeOffset, writeBits, loadOffset, loadBits) != -1
    requires v < Pow2(writeBits) && Has(mem, base + loadOffset, loadBits / 8)
    ensures var offset := Analyze(false, true, storeOffset, writeBits, loadOffset, loadBits);
      && 0 <= offset && offset + loadBits / 8 <= writeBits / 8
      && Decode(little, Read(Write(mem, base + storeOffset, Encode(little, writeBits / 8, v)), base + loadOffset, loadBits / 8))
        == StoreValueForLoad(v, writeBits / 8, offset, loadBits / 8, little)
  {
    hide Decode, Analyze, StoreValueForLoad, Pow2, Encode, Read, Write, Expressible, EndsAcross;
    AnalyzeIsRight(false, true, storeOffset, writeBits, loadOffset, loadBits);
    assert 8 * (writeBits / 8) == writeBits;
    LoadInStore(mem, base + storeOffset, writeBits / 8, loadOffset - storeOffset, loadBits / 8, v, little);
  }

  lemma LoadInStore(mem: Memory, at: int, storeSize: nat, offset: nat, loadSize: nat, v: nat, little: bool)
    requires offset + loadSize <= storeSize && v < Pow2(8 * storeSize) && Has(mem, at + offset, loadSize)
    ensures Decode(little, Read(Write(mem, at, Encode(little, storeSize, v)), at + offset, loadSize))
      == StoreValueForLoad(v, storeSize, offset, loadSize, little)
  {
    hide Decode, StoreValueForLoad, Pow2, Read, Write;
    ReadWritten(mem, at, Encode(little, storeSize, v), at + offset, loadSize);
    StoreForwards(v, storeSize, offset, loadSize, little);
  }

  // ----- memset -----

  function Copies(byte: nat, n: nat): (b: Bytes)
    ensures |b| == n && forall i :: 0 <= i < n ==> b[i] == byte
  {
    seq(n, i requires 0 <= i < n => byte)
  }

  /** `n` copies of a byte as an integer. */
  function Repeated(byte: nat, n: nat): nat { if n == 0 then 0 else byte + 256 * Repeated(byte, n - 1) }

  lemma {:induction false} RepeatedIs(byte: nat, n: nat, little: bool)
    ensures Repeated(byte, n) == Decode(little, Copies(byte, n))
  {
    assert Reversed(Copies(byte, n)) == Copies(byte, n);
    if n > 0 {
      RepeatedIs(byte, n - 1, true);
      assert Copies(byte, n)[1..] == Copies(byte, n - 1);
    }
  }

  lemma {:induction false} RepeatedFits(byte: nat, n: nat)
    requires byte < 256
    ensures Repeated(byte, n) < Pow2(8 * n)
  {
    if n > 0 {
      RepeatedFits(byte, n - 1);
      Pow2Byte(n);
    }
  }

  /** Shifted copies beside copies. */
  lemma {:induction false} RepeatedAdds(byte: nat, n: nat, m: nat)
    ensures Repeated(byte, n + m) == Repeated(byte, n) + Repeated(byte, m) * Pow2(8 * n)
  {
    if n > 0 {
      RepeatedAdds(byte, n - 1, m);
      Pow2Byte(n);
      Rotate(Repeated(byte, m), Pow2(8 * (n - 1)));
    }
  }

  lemma Rotate(a: nat, b: nat)
    ensures a * (256 * b) == 256 * (a * b)
  {
  }

  /**
   * The byte repeated until it fills the load, doubling as long as there is room. The bits that are joined
   * do not overlap, so that the bitwise or is a sum.
   */
  method Splat(byte: nat, loadSize: nat, ghost little: bool) returns (val: nat)
    requires byte < 256 && loadSize > 0
    ensures val == Decode(little, Copies(byte, loadSize)) && val < Pow2(8 * loadSize)
  {
    val := byte;
    var oneElt, numBytesSet := val, 1;
    assert Repeated(byte, 1) == byte + 256 * Repeated(byte, 0);
    while numBytesSet != loadSize
      invariant 1 <= numBytesSet <= loadSize && val == Repeated(byte, numBytesSet)
      decreases loadSize - numBytesSet
    {
      if numBytesSet * 2 <= loadSize {
        RepeatedAdds(byte, numBytesSet, numBytesSet);
        RepeatedFits(byte, numBytesSet);
        val := val + val * Pow2(8 * numBytesSet);
        numBytesSet := numBytesSet * 2;
      } else {
        val := oneElt + val * Pow2(8);
        assert Pow2(8) == 256;
        numBytesSet := numBytesSet + 1;
      }
    }
    RepeatedIs(byte, loadSize, little);
    RepeatedFits(byte, loadSize);
  }

  /** What a load reads from inside a memset. */
  lemma LoadAfterMemset(mem: Memory, at: int, n: nat, byte: nat, from: int, loadSize: nat, little: bool)
    requires Has(mem, from, loadSize) && at <= from && from + loadSize <= at + n
    ensures Decode(little, Read(Write(mem, at, Copies(byte, n)), from, loadSize)) == Repeated(byte, loadSize)
  {
    ReadWritten(mem, at, Copies(byte, n), from, loadSize);
    assert Copies(byte, n)[from - at..from - at + loadSize] == Copies(byte, loadSize);
    RepeatedIs(byte, loadSize, little);
  }
}
