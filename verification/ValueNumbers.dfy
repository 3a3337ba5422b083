/** Values, the expressions that number them, and what numbers mean. */
module ValueNumbers {
  const CALL := 48
  const EXTRACT_VALUE := 56
  const INSERT_VALUE := 57
  const COMPARES: set<nat> := {45, 46}
  const ARITHMETIC: set<nat> := {8, 10, 12}
  const COMMUTATIVE: set<nat> := {8, 9, 12, 13, 23, 24, 25}

  /** How a value comes about. The value table tells other instructions and everything else only by identity. */
  datatype Def =
    | Opaque
    | Operation(op: nat, ty: nat, args: seq<nat>)
    | OverflowCall(op: nat, ty: nat, args: seq<nat>)
    | Compare(op: nat, pred: nat, ty: nat, lhs: nat, rhs: nat)
    | Extract(ty: nat, agg: nat, indices: seq<nat>)
    | Insert(ty: nat, agg: nat, val: nat, indices: seq<nat>)

  datatype Expression = Expression(opcode: nat, ty: nat, varargs: seq<nat>)

  /** The predicate that holds when the operands are exchanged. */
  function Swapped(pred: nat): nat {
    if pred == 2 then 4 else if pred == 4 then 2 else if pred == 3 then 5 else if pred == 5 then 3
    else if pred == 10 then 12 else if pred == 12 then 10 else if pred == 11 then 13 else if pred == 13 then 11
    else if pred == 34 then 36 else if pred == 36 then 34 else if pred == 35 then 37 else if pred == 37 then 35
    else if pred == 38 then 40 else if pred == 40 then 38 else if pred == 39 then 41 else if pred == 41 then 39
    else pred
  }

  /** The outcomes of comparing two operands. */
  datatype Order = Less | Same | Greater | Unordered

  /** What a predicate compares: bits for equality, numbers without or with a sign, or floating-point numbers. */
  datatype Kind = Bits | Unsigned | Signed | Floats

  /** The predicates that there are: 16 for floating-point numbers, and 10 for integers. */
  predicate Known(pred: nat) { pred < 16 || 32 <= pred < 42 }

  function KindOf(pred: nat): Kind
    requires Known(pred)
  {
    if pred < 16 then Floats else if pred < 34 then Bits else if pred < 38 then Unsigned else Signed
  }

  /** The outcomes for which a predicate is true. Floating-point predicates have a bit for each. */
  predicate Accepts(pred: nat, o: Order)
    requires Known(pred)
  {
    match o
    case Same => if pred < 16 then pred % 2 == 1 else pred in {32, 35, 37, 39, 41}
    case Greater => if pred < 16 then pred / 2 % 2 == 1 else pred in {33, 34, 35, 38, 39}
    case Less => if pred < 16 then pred / 4 % 2 == 1 else pred in {33, 36, 37, 40, 41}
    case Unordered => 8 <= pred < 16
  }

  /** The outcome with the operands exchanged. */
  function Mirror(o: Order): Order {
    match o case Less => Greater case Greater => Less case _ => o
  }

  /** A predicate compares as another one does, and accepts just the mirrored outcomes. An unknown one mirrors itself alone. */
  ghost predicate Mirrors(pred: nat, q: nat) {
    if !Known(pred) then q == pred
    else Known(q) && KindOf(q) == KindOf(pred) && forall o :: Accepts(q, o) <==> Accepts(pred, Mirror(o))
  }

  /** Swapping gives the one predicate that mirrors. */
  lemma SwappedMirrors(pred: nat, q: nat)
    ensures Mirrors(pred, q) <==> q == Swapped(pred)
  {
    if Known(pred) && Known(q) {
      assert Accepts(q, Less) <==> Accepts(q, Mirror(Greater));
      assert Accepts(pred, Mirror(Less)) <==> Accepts(pred, Greater);
      assert Accepts(pred, Mirror(Greater)) <==> Accepts(pred, Less);
      assert Accepts(pred, Mirror(Same)) <==> Accepts(pred, Same);
      assert Accepts(pred, Mirror(Unordered)) <==> Accepts(pred, Unordered);
    }
  }

  /** Opcode and predicate of a comparison in one number. */
  function Packed(op: nat, pred: nat): nat { op * 256 + pred }

  /** Comparisons are told apart from each other and from plain opcodes. */
  lemma PackedApart(op: nat, pred: nat, op2: nat, pred2: nat)
    requires pred < 256 && pred2 < 256 && op > 0
    ensures Packed(op, pred) == Packed(op2, pred2) <==> op == op2 && pred == pred2
    ensures op2 < 256 ==> Packed(op, pred) != op2
  {
  }

  /** The results of intrinsics with overflow are numbered as plain arithmetic. */
  predicate IsOverflowResult(defs: seq<Def>, d: Def) {
    d.Extract? && d.indices == [0] && d.agg < |defs| && defs[d.agg].OverflowCall? && |defs[d.agg].args| >= 2
  }

  /** The operands of a definition. */
  function Args(d: Def): seq<nat> {
    match d
    case Opaque => []
    case Operation(_, _, args) => args
    case OverflowCall(_, _, args) => args
    case Compare(_, _, _, lhs, rhs) => [lhs, rhs]
    case Extract(_, agg, _) => [agg]
    case Insert(_, agg, val, _) => [agg, val]
  }

  /** The values whose numbers go into an expression. */
  function Operands(defs: seq<Def>, d: Def): seq<nat> {
    if IsOverflowResult(defs, d) then defs[d.agg].args[..2] else Args(d)
  }

  /** Definitions come before their uses, and commutative operations have two operands. */
  predicate WellFormed(defs: seq<Def>) {
    && (forall v, i | 0 <= v < |defs| && 0 <= i < |Operands(defs, defs[v])| :: Operands(defs, defs[v])[i] < v)
    && forall v | 0 <= v < |defs| :: WellFormedDef(defs[v])
  }

  predicate WellFormedDef(d: Def) {
    match d
    case Operation(op, _, args) => op < 256 && op != EXTRACT_VALUE && op != INSERT_VALUE && (op in COMMUTATIVE ==> |args| == 2)
    case OverflowCall(op, _, args) => op in ARITHMETIC && |args| >= 2
    case Compare(op, pred, _, _, _) => op in COMPARES && pred < 256
    case _ => true
  }

  function Sorted(ns: seq<nat>): (r: seq<nat>)
    requires |ns| == 2
    ensures |r| == 2 && r[0] <= r[1] && (r == ns || r == [ns[1], ns[0]])
  {
    if ns[0] > ns[1] then [ns[1], ns[0]] else ns
  }

  /** The expression of a comparison: exchanged so that the smaller number comes first. */
  function CompareExpression(op: nat, pred: nat, ty: nat, lhs: nat, rhs: nat): Expression {
    Expression(Packed(op, if lhs > rhs then Swapped(pred) else pred), ty, Sorted([lhs, rhs]))
  }

  /** The expression of a definition whose operands have the numbers `ns`. */
  function ExpressionOf(defs: seq<Def>, d: Def, ns: seq<nat>): Expression
    requires |ns| == |Operands(defs, d)|
    requires d.Operation? && d.op in COMMUTATIVE ==> |ns| == 2
  {
    match d
    case Opaque => Expression(0, 0, [])
    case Operation(op, ty, _) => Expression(op, ty, if op in COMMUTATIVE then Sorted(ns) else ns)
    case OverflowCall(_, ty, _) => Expression(CALL, ty, ns)
    case Compare(op, pred, ty, _, _) => CompareExpression(op, pred, ty, ns[0], ns[1])
    case Extract(ty, agg, indices) =>
      if IsOverflowResult(defs, d) then Expression(defs[agg].op, ty, ns) else Expression(EXTRACT_VALUE, ty, ns + indices)
    case Insert(ty, _, _, indices) => Expression(INSERT_VALUE, ty, ns + indices)
  }

  // ----- valuations -----

  /** A value for each name, and a meaning for each operation. */
  datatype Meaning = Meaning(value: nat -> int, apply: (nat, nat, seq<int>) -> int)

  function ValuesOf(m: Meaning, vs: seq<nat>): (r: seq<int>)
    ensures |r| == |vs|
  {
    seq(|vs|, i requires 0 <= i < |vs| => m.value(vs[i]))
  }

  /** What a definition makes of its operands. */
  function Computed(m: Meaning, d: Def): int {
    var xs := ValuesOf(m, Args(d));
    match d
    case Opaque => 0
    case Operation(op, ty, _) => m.apply(op, ty, xs)
    case OverflowCall(_, ty, _) => m.apply(CALL, ty, xs)
    case Compare(op, pred, ty, _, _) => m.apply(Packed(op, pred), ty, xs)
    case Extract(ty, _, indices) => m.apply(EXTRACT_VALUE, ty, xs + Ints(indices))
    case Insert(ty, _, _, indices) => m.apply(INSERT_VALUE, ty, xs + Ints(indices))
  }

  function Ints(ns: seq<nat>): (r: seq<int>)
    ensures |r| == |ns| && forall i :: 0 <= i < |ns| ==> r[i] == ns[i]
  {
    seq(|ns|, i requires 0 <= i < |ns| => ns[i])
  }

  /** Operands of commutative operations can be exchanged, and of comparisons if the predicate becomes the mirrored one. */
  ghost predicate Lawful(m: Meaning) {
    && (forall op, ty, a, b :: op in COMMUTATIVE ==> m.apply(op, ty, [a, b]) == m.apply(op, ty, [b, a]))
    && forall op, pred, q, ty, a, b :: op in COMPARES && pred < 256 && Mirrors(pred, q) ==>
      m.apply(Packed(op, q), ty, [a, b]) == m.apply(Packed(op, pred), ty, [b, a])
  }

  /** A valuation in which each definition holds, and the first part of an intrinsic's result is the plain arithmetic. */
  ghost predicate Satisfies(m: Meaning, defs: seq<Def>) {
    && Lawful(m)
    && (forall v: nat | v < |defs| && !defs[v].Opaque? :: m.value(v) == Computed(m, defs[v]))
    && PlainResults(m, defs)
  }

  ghost predicate PlainResults(m: Meaning, defs: seq<Def>) {
    forall v: nat | v < |defs| && IsOverflowResult(defs, defs[v]) ::
      var call := defs[defs[v].agg];
      Computed(m, defs[v]) == m.apply(call.op, defs[v].ty, [m.value(call.args[0]), m.value(call.args[1])])
  }

  /** Arguments have their definitions before them. */
  predicate InOrder(defs: seq<Def>) {
    forall v, i | 0 <= v < |defs| && 0 <= i < |Args(defs[v])| :: Args(defs[v])[i] < v
  }

  // ----- there are valuations -----

  /** How many bits integers have, and which values stand for no number in floating point. */
  datatype Host = Host(width: nat, nan: int -> bool)

  function Pow2(n: nat): (p: nat)
    ensures p > 0
  {
    if n == 0 then 1 else 2 * Pow2(n - 1)
  }

  function AsUnsigned(h: Host, a: int): nat { a % Pow2(h.width) }

  function AsSigned(h: Host, a: int): int {
    var n := AsUnsigned(h, a);
    if 2 * n < Pow2(h.width) then n else n - Pow2(h.width)
  }

  function OrderOf(a: int, b: int): Order { if a < b then Less else if a == b then Same else Greater }

  function Compared(h: Host, k: Kind, a: int, b: int): Order {
    match k
    case Signed => OrderOf(AsSigned(h, a), AsSigned(h, b))
    case Floats => if h.nan(a) || h.nan(b) then Unordered else OrderOf(a, b)
    case _ => OrderOf(AsUnsigned(h, a), AsUnsigned(h, b))
  }

  predicate Holds(h: Host, pred: nat, a: int, b: int)
    requires Known(pred)
  {
    Accepts(pred, Compared(h, KindOf(pred), a, b))
  }

  /** And, or and exclusive or (23, 24, 25), bit by bit. */
  function Bitwise(op: nat, x: nat, y: nat, width: nat): nat {
    if width == 0 then 0 else
    var a, b := x % 2, y % 2;
    Truth(if op == 23 then a == 1 && b == 1 else if op == 24 then a == 1 || b == 1 else a != b) + 2 * Bitwise(op, x / 2, y / 2, width - 1)
  }

  function Abs(a: int): (n: nat)
    ensures n == 0 <==> a == 0
  {
    if a < 0 then -a else a
  }

  /** Division that cuts off towards zero. */
  function Quotient(a: int, b: int): int {
    if b == 0 then 0 else if (a < 0) == (b < 0) then Abs(a) / Abs(b) else -(Abs(a) / Abs(b))
  }

  /** The binary operations on whole numbers: floating-point ones without rounding, and the others by the bits of a word. */
  function Arithmetic(h: Host, op: nat, a: int, b: int): int {
    var x, y, s, t := AsUnsigned(h, a), AsUnsigned(h, b), AsSigned(h, a), AsSigned(h, b);
    match op
    case 9 => a + b
    case 11 => a - b
    case 13 => a * b
    case 16 => Quotient(a, b)
    case 19 => a - b * Quotient(a, b)
    case 8 => AsUnsigned(h, x + y)
    case 10 => AsUnsigned(h, x - y)
    case 12 => AsUnsigned(h, x * y)
    case 14 => Quotient(x, y)
    case 15 => AsUnsigned(h, Quotient(s, t))
    case 17 => x - y * Quotient(x, y)
    case 18 => AsUnsigned(h, s - t * Quotient(s, t))
    case 20 => AsUnsigned(h, x * Pow2(y))
    case 21 => x / Pow2(y)
    case 22 => AsUnsigned(h, s / Pow2(y))
    case _ => Bitwise(op, x, y, h.width)
  }

  /** What the binary operations (8 to 25) and the comparisons usually mean. */
  function Usual(h: Host, op: nat, xs: seq<int>): int {
    if |xs| != 2 then 0
    else if op / 256 in COMPARES && Known(op % 256) then Truth(Holds(h, op % 256, xs[0], xs[1]))
    else if 8 <= op <= 25 then Arithmetic(h, op, xs[0], xs[1])
    else 0
  }

  function UsualMeaning(value: nat -> int, h: Host): Meaning {
    Meaning(value, (op: nat, ty: nat, xs: seq<int>) => Usual(h, op, xs))
  }

  function Truth(b: bool): nat { if b then 1 else 0 }

  /** The swapped predicate holds of two operands exactly when the predicate holds of them exchanged. */
  lemma SwappedHolds(h: Host, pred: nat, a: int, b: int)
    requires Known(pred)
    ensures Known(Swapped(pred)) && (Holds(h, Swapped(pred), a, b) <==> Holds(h, pred, b, a))
  {
    SwappedMirrors(pred, Swapped(pred));
    MirrorHolds(h, pred, Swapped(pred), a, b);
  }

  lemma MirrorHolds(h: Host, pred: nat, q: nat, a: int, b: int)
    requires Known(pred) && Mirrors(pred, q)
    ensures Holds(h, q, a, b) <==> Holds(h, pred, b, a)
  {
    hide Accepts;
    var k := KindOf(pred);
    assert Compared(h, k, b, a) == Mirror(Compared(h, k, a, b));
  }

  lemma {:induction false} BitwiseCommutes(op: nat, x: nat, y: nat, width: nat)
    ensures Bitwise(op, x, y, width) == Bitwise(op, y, x, width)
  {
    if width > 0 { BitwiseCommutes(op, x / 2, y / 2, width - 1); }
  }

  lemma ArithmeticCommutes(h: Host, op: nat, a: int, b: int)
    requires op in COMMUTATIVE
    ensures Arithmetic(h, op, a, b) == Arithmetic(h, op, b, a)
  {
    BitwiseCommutes(op, AsUnsigned(h, a), AsUnsigned(h, b), h.width);
  }

  /** The commutative opcodes are exactly the binary operations that do not depend on the order of their operands. */
  lemma CommutativeExactly(op: nat)
    requires 8 <= op <= 25
    ensures op in COMMUTATIVE <==> forall h, a, b :: Arithmetic(h, op, a, b) == Arithmetic(h, op, b, a)
  {
    if op in COMMUTATIVE {
      forall h, a, b ensures Arithmetic(h, op, a, b) == Arithmetic(h, op, b, a) { ArithmeticCommutes(h, op, a, b); }
    } else {
      var h := Host(3, _ => false);
      assert Pow2(3) == 8 && Pow2(1) == 2;
      assert Arithmetic(h, op, 1, 3) != Arithmetic(h, op, 3, 1);
    }
  }

  /** The laws hold of the usual meaning, in which every predicate accepts just its outcomes and only commutative operations commute. */
  lemma UsualIsLawful(value: nat -> int, h: Host)
    ensures var m := UsualMeaning(value, h);
      && Lawful(m)
      && (forall op, pred, ty, a, b :: op in COMPARES && Known(pred) ==>
            m.apply(Packed(op, pred), ty, [a, b]) == Truth(Accepts(pred, Compared(h, KindOf(pred), a, b))))
      && forall op, ty, a, b :: 8 <= op <= 25 ==> m.apply(op, ty, [a, b]) == Arithmetic(h, op, a, b)
  {
    var m := UsualMeaning(value, h);
    hide Arithmetic, Accepts, Mirrors;
    forall op, ty: nat, a, b | op in COMMUTATIVE ensures m.apply(op, ty, [a, b]) == m.apply(op, ty, [b, a]) {
      ArithmeticCommutes(h, op, a, b);
    }
    forall op: nat, pred: nat, ty: nat, a, b | op in COMPARES && Known(pred)
      ensures m.apply(Packed(op, pred), ty, [a, b]) == Truth(Holds(h, pred, a, b))
    {
      UsualCompare(h, op, pred, a, b);
    }
    forall op, pred, q, ty: nat, a, b | op in COMPARES && pred < 256 && Mirrors(pred, q)
      ensures m.apply(Packed(op, q), ty, [a, b]) == m.apply(Packed(op, pred), ty, [b, a])
    {
      UsualMirrored(h, op, pred, q, a, b);
    }
  }

  lemma UsualCompare(h: Host, op: nat, pred: nat, a: int, b: int)
    requires op in COMPARES && pred < 256
    ensures Usual(h, Packed(op, pred), [a, b]) == if Known(pred) then Truth(Holds(h, pred, a, b)) else 0
  {
    assert Packed(op, pred) / 256 == op && Packed(op, pred) % 256 == pred;
  }

  lemma UsualMirrored(h: Host, op: nat, pred: nat, q: nat, a: int, b: int)
    requires op in COMPARES && pred < 256 && Mirrors(pred, q)
    ensures Usual(h, Packed(op, q), [a, b]) == Usual(h, Packed(op, pred), [b, a])
  {
    hide Usual, Accepts, Holds;
    UsualCompare(h, op, pred, b, a);
    UsualCompare(h, op, q, a, b);
    if Known(pred) { MirrorHolds(h, pred, q, a, b); }
  }

  /** The value of each name when the operations mean `apply` and the names without a definition are as given. */
  function Valued(apply: (nat, nat, seq<int>) -> int, given: nat -> int, defs: seq<Def>, v: nat): int
    decreases v
  {
    if v >= |defs| || defs[v].Opaque? then given(v) else
    Computed(Meaning((w: nat) => if w < v then Valued(apply, given, defs, w) else 0, apply), defs[v])
  }

  function Valuation(apply: (nat, nat, seq<int>) -> int, given: nat -> int, defs: seq<Def>): Meaning {
    Meaning((v: nat) => Valued(apply, given, defs, v), apply)
  }

  /** Only the values of the operands matter. */
  lemma ComputedAlike(m: Meaning, n: Meaning, d: Def)
    requires m.apply == n.apply && forall i :: 0 <= i < |Args(d)| ==> m.value(Args(d)[i]) == n.value(Args(d)[i])
    ensures Computed(m, d) == Computed(n, d)
  {
    assert ValuesOf(m, Args(d)) == ValuesOf(n, Args(d));
  }

  lemma DefinitionHolds(apply: (nat, nat, seq<int>) -> int, given: nat -> int, defs: seq<Def>, v: nat)
    requires InOrder(defs) && v < |defs| && !defs[v].Opaque?
    ensures Valued(apply, given, defs, v) == Computed(Valuation(apply, given, defs), defs[v])
  {
    var before := Meaning((w: nat) => if w < v then Valued(apply, given, defs, w) else 0, apply);
    hide Computed;
    ComputedAlike(before, Valuation(apply, given, defs), defs[v]);
  }

  /**
   * Whatever lawful thing the operations mean and whatever the other values are, this valuation satisfies the
   * definitions, if the first parts of intrinsics' results are the plain arithmetic.
   */
  lemma EveryRunSatisfies(apply: (nat, nat, seq<int>) -> int, given: nat -> int, defs: seq<Def>)
    requires Lawful(Meaning(given, apply)) && InOrder(defs)
    ensures Satisfies(Valuation(apply, given, defs), defs) <==> PlainResults(Valuation(apply, given, defs), defs)
    ensures forall v: nat | v < |defs| && defs[v].Opaque? :: Valuation(apply, given, defs).value(v) == given(v)
  {
    var m := Valuation(apply, given, defs);
    assert m.apply == Meaning(given, apply).apply && Lawful(m);
    hide Computed, IsOverflowResult, InOrder, Lawful;
    forall v: nat | v < |defs| && !defs[v].Opaque? ensures m.value(v) == Computed(m, defs[v]) {
      DefinitionHolds(apply, given, defs, v);
    }
  }

  // ----- the meaning of numbers -----

  /** Where a number came from. */
  datatype Origin = Nothing | FromValue(v: nat) | FromExpression(e: Expression)

  /** How many arguments of an expression are numbers; the rest are indices. */
  function Numbers(e: Expression): nat {
    if e.opcode == EXTRACT_VALUE then 1 else if e.opcode == INSERT_VALUE then 2 else |e.varargs|
  }

  /** The value of a number: that of the value it was made for, or of the expression. */
  function Denoted(m: Meaning, origins: seq<Origin>, n: nat): int
    decreases n, 0, 2
  {
    if n >= |origins| then 0 else
    match origins[n]
    case Nothing => 0
    case FromValue(v) => m.value(v)
    case FromExpression(e) => Evaluated(m, origins, e, n)
  }

  /** The arguments of an expression: the values of its numbers, which are below `n`, and its indices. */
  function Arguments(m: Meaning, origins: seq<Origin>, e: Expression, n: nat): (xs: seq<int>)
    ensures |xs| == |e.varargs|
    decreases n, 0, 0
  {
    seq(|e.varargs|, i requires 0 <= i < |e.varargs| =>
      if i >= Numbers(e) then e.varargs[i] else if e.varargs[i] < n then Denoted(m, origins, e.varargs[i]) else 0)
  }

  function Evaluated(m: Meaning, origins: seq<Origin>, e: Expression, n: nat): int
    decreases n, 0, 1
  {
    m.apply(e.opcode, e.ty, Arguments(m, origins, e, n))
  }

  /** New numbers leave the meaning of old ones alone. */
  lemma {:induction false} DenotedKept(m: Meaning, origins: seq<Origin>, more: seq<Origin>, n: nat)
    requires origins <= more && n < |origins|
    ensures Denoted(m, more, n) == Denoted(m, origins, n)
    decreases n
  {
    if origins[n].FromExpression? { EvaluatedKept(m, origins, more, origins[n].e, n); }
  }

  lemma {:induction false} EvaluatedKept(m: Meaning, origins: seq<Origin>, more: seq<Origin>, e: Expression, n: nat)
    requires origins <= more && n <= |origins|
    ensures Evaluated(m, more, e, n) == Evaluated(m, origins, e, n)
    decreases n, 0
  {
    forall i | 0 <= i < |e.varargs| && e.varargs[i] < n ensures Denoted(m, more, e.varargs[i]) == Denoted(m, origins, e.varargs[i]) {
      DenotedKept(m, origins, more, e.varargs[i]);
    }
    assert Arguments(m, more, e, n) == Arguments(m, origins, e, n);
  }

  /** Numbers of an expression's operands that are below `n` and mean what the operands are. */
  ghost predicate Meant(m: Meaning, origins: seq<Origin>, vs: seq<nat>, ns: seq<nat>, n: nat) {
    |ns| == |vs| && forall i :: 0 <= i < |vs| ==> ns[i] < n && Denoted(m, origins, ns[i]) == m.value(vs[i])
  }

  lemma ArgumentsPlain(m: Meaning, origins: seq<Origin>, vs: seq<nat>, ns: seq<nat>, n: nat, e: Expression)
    requires Meant(m, origins, vs, ns, n) && e.varargs == ns && Numbers(e) >= |ns|
    ensures Arguments(m, origins, e, n) == ValuesOf(m, vs)
  {
  }

  lemma ArgumentsIndexed(m: Meaning, origins: seq<Origin>, vs: seq<nat>, ns: seq<nat>, indices: seq<nat>, n: nat, e: Expression)
    requires Meant(m, origins, vs, ns, n) && e.varargs == ns + indices && Numbers(e) == |ns|
    ensures Arguments(m, origins, e, n) == ValuesOf(m, vs) + Ints(indices)
  {
  }

  /** With two operands exchanged the arguments are. */
  lemma ArgumentsSorted(m: Meaning, origins: seq<Origin>, vs: seq<nat>, ns: seq<nat>, n: nat, e: Expression)
    requires Meant(m, origins, vs, ns, n) && |ns| == 2 && e.varargs == Sorted(ns) && Numbers(e) >= 2
    ensures var x, y := m.value(vs[0]), m.value(vs[1]);
      ValuesOf(m, vs) == [x, y] && Arguments(m, origins, e, n) == if ns[0] > ns[1] then [y, x] else [x, y]
  {
  }

  lemma SwappedTwice(pred: nat)
    ensures Swapped(Swapped(pred)) == pred
  {
  }

  lemma Exchanged(m: Meaning, op: nat, ty: nat, x: int, y: int)
    requires Lawful(m) && op in COMMUTATIVE
    ensures m.apply(op, ty, [x, y]) == m.apply(op, ty, [y, x])
  {
  }

  lemma ComparedExchanged(m: Meaning, op: nat, pred: nat, ty: nat, x: int, y: int)
    requires Lawful(m) && op in COMPARES && pred < 256
    ensures m.apply(Packed(op, Swapped(pred)), ty, [x, y]) == m.apply(Packed(op, pred), ty, [y, x])
  {
    hide Mirrors, Swapped;
    SwappedMirrors(pred, Swapped(pred));
  }

  lemma OverflowMeans(m: Meaning, defs: seq<Def>, v: nat, origins: seq<Origin>, ns: seq<nat>, n: nat)
    requires Satisfies(m, defs) && WellFormed(defs) && v < |defs| && IsOverflowResult(defs, defs[v])
    requires Meant(m, origins, Operands(defs, defs[v]), ns, n)
    ensures Evaluated(m, origins, ExpressionOf(defs, defs[v], ns), n) == Computed(m, defs[v])
  {
    var d := defs[v];
    var vs, e, call := Operands(defs, d), ExpressionOf(defs, d, ns), defs[d.agg];
    assert WellFormedDef(call);
    hide Meant, Denoted, Lawful, WellFormed;
    assert ValuesOf(m, vs) == [m.value(call.args[0]), m.value(call.args[1])];
    ArgumentsPlain(m, origins, vs, ns, n, e);
  }

  /** The expression of a definition evaluates to what the definition computes. */
  lemma ExpressionMeans(m: Meaning, defs: seq<Def>, v: nat, origins: seq<Origin>, ns: seq<nat>, n: nat)
    requires Satisfies(m, defs) && WellFormed(defs) && v < |defs| && !defs[v].Opaque?
    requires Meant(m, origins, Operands(defs, defs[v]), ns, n)
    ensures Evaluated(m, origins, ExpressionOf(defs, defs[v], ns), n) == Computed(m, defs[v])
  {
    var d := defs[v];
    assert WellFormedDef(d);
    var vs, e := Operands(defs, d), ExpressionOf(defs, d, ns);
    hide Meant, Swapped, Denoted, Lawful;
    match d {
      case Operation(op, ty, _) =>
        if op in COMMUTATIVE {
          ArgumentsSorted(m, origins, vs, ns, n, e);
          Exchanged(m, op, ty, m.value(vs[0]), m.value(vs[1]));
        } else { ArgumentsPlain(m, origins, vs, ns, n, e); }
      case OverflowCall(_, _, _) => ArgumentsPlain(m, origins, vs, ns, n, e);
      case Compare(op, pred, ty, lhs, rhs) =>
        ArgumentsSorted(m, origins, vs, ns, n, e);
        ComparedExchanged(m, op, pred, ty, m.value(rhs), m.value(lhs));
      case Extract(_, agg, indices) =>
        if IsOverflowResult(defs, d) {
          OverflowMeans(m, defs, v, origins, ns, n);
        } else {
          ArgumentsIndexed(m, origins, vs, ns, indices, n, e);
        }
      case Insert(_, _, _, indices) => ArgumentsIndexed(m, origins, vs, ns, indices, n, e);
    }
  }

  /** With the operands exchanged, the mirrored predicate and no other gives the same expression. */
  lemma ComparesAlike(op: nat, pred: nat, q: nat, ty: nat, lhs: nat, rhs: nat)
    requires pred < 256 && q < 256
    ensures CompareExpression(op, pred, ty, lhs, rhs) == CompareExpression(op, q, ty, rhs, lhs)
      <==> if lhs != rhs then Mirrors(pred, q) else pred == q
  {
    hide Swapped, Mirrors;
    SwappedTwice(pred);
    SwappedTwice(q);
    SwappedMirrors(pred, q);
    SwappedBelow(pred);
    SwappedBelow(q);
    assert Sorted([lhs, rhs]) == Sorted([rhs, lhs]);
  }

  lemma SwappedBelow(pred: nat)
    ensures pred < 256 ==> Swapped(pred) < 256
  {
  }
}
