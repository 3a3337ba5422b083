/** Complex numbers over exact reals. */
module Complex {
  datatype Cplx = Cplx(re: real, im: real)

  const Zero := Cplx(0.0, 0.0)
  const One := Cplx(1.0, 0.0)
  const MinusOne := Cplx(-1.0, 0.0)

  function Add(a: Cplx, b: Cplx): Cplx { Cplx(a.re + b.re, a.im + b.im) }

  function Sub(a: Cplx, b: Cplx): Cplx { Cplx(a.re - b.re, a.im - b.im) }

  function Mul(a: Cplx, b: Cplx): Cplx { Cplx(a.re * b.re - a.im * b.im, a.re * b.im + a.im * b.re) }

  lemma MulAssoc(a: Cplx, b: Cplx, c: Cplx)
    ensures Mul(Mul(a, b), c) == Mul(a, Mul(b, c))
  {
  }

  lemma MulCommutes(a: Cplx, b: Cplx)
    ensures Mul(a, b) == Mul(b, a)
  {
  }

  lemma Distributes(a: Cplx, b: Cplx, c: Cplx)
    ensures Mul(a, Add(b, c)) == Add(Mul(a, b), Mul(a, c))
  {
  }

  lemma MulOne(a: Cplx)
    ensures Mul(a, One) == a && Mul(One, a) == a && Mul(a, Zero) == Zero
  {
  }

  lemma MulMinusOne(a: Cplx, b: Cplx, c: Cplx)
    ensures Add(a, Mul(Mul(b, MinusOne), c)) == Sub(a, Mul(b, c)) && Mul(MinusOne, MinusOne) == One
  {
  }

  lemma AddRules(a: Cplx, b: Cplx, c: Cplx, d: Cplx)
    ensures Add(Add(a, b), Add(c, d)) == Add(Add(a, c), Add(b, d)) && Add(Zero, a) == a
  {
  }

  function Pow(w: Cplx, e: nat): Cplx { if e == 0 then One else Mul(w, Pow(w, e - 1)) }

  lemma {:induction false} PowAdd(w: Cplx, a: nat, b: nat)
    ensures Pow(w, a + b) == Mul(Pow(w, a), Pow(w, b))
  {
    hide Mul;
    if a == 0 {
      MulOne(Pow(w, b));
    } else {
      PowAdd(w, a - 1, b);
      MulAssoc(w, Pow(w, a - 1), Pow(w, b));
    }
  }

  lemma {:induction false} PowMul(w: Cplx, a: nat, b: nat)
    ensures Pow(Pow(w, a), b) == Pow(w, a * b)
  {
    hide Mul;
    if b > 0 {
      PowMul(w, a, b - 1);
      PowAdd(w, a, a * (b - 1));
      assert a + a * (b - 1) == a * b;
    }
  }

  lemma {:induction false} PowOne(e: nat)
    ensures Pow(One, e) == One
  {
    hide Mul;
    if e > 0 { PowOne(e - 1); MulOne(One); }
  }
}
