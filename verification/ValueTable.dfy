/** The value table: equal numbers mean equal values, whatever the operations do. */
module ValueTable {
  import opened ValueNumbers

  /** Numbered values and expressions, and where the numbers came from. */
  datatype Table = Table(values: map<nat, nat>, expressions: map<Expression, nat>, origins: seq<Origin>)

  /** The numbers of an expression are below its own. */
  ghost predicate Below(e: Expression, n: nat) {
    forall i :: 0 <= i < |e.varargs| && i < Numbers(e) ==> e.varargs[i] < n
  }

  lemma {:induction false} ArgumentsAbove(m: Meaning, origins: seq<Origin>, e: Expression, n: nat, k: nat)
    requires Below(e, n) && n <= k
    ensures Evaluated(m, origins, e, k) == Evaluated(m, origins, e, n)
  {
    assert Arguments(m, origins, e, k) == Arguments(m, origins, e, n);
  }

  /** Each expression has a number of its own, above those it refers to. */
  ghost predicate Consed(t: Table) {
    && |t.origins| > 0 && t.origins[0] == Nothing
    && (forall e | e in t.expressions :: 0 < t.expressions[e] < |t.origins| && t.origins[t.expressions[e]] == FromExpression(e))
    && (forall e | e in t.expressions :: Below(e, t.expressions[e]))
    && (forall n: nat | n < |t.origins| && t.origins[n].FromExpression? ::
          t.origins[n].e in t.expressions && t.expressions[t.origins[n].e] == n)
    && forall v | v in t.values :: 0 < t.values[v] < |t.origins|
  }

  /** In each valuation the numbered values have the values that their numbers mean. */
  ghost predicate Sound(t: Table, defs: seq<Def>) {
    forall m: Meaning, v | Satisfies(m, defs) && v in t.values :: m.value(v) == Denoted(m, t.origins, t.values[v])
  }

  ghost predicate Grown(t: Table, u: Table) {
    && t.origins <= u.origins
    && (forall v | v in t.values :: v in u.values && u.values[v] == t.values[v])
    && forall e | e in t.expressions :: e in u.expressions && u.expressions[e] == t.expressions[e]
  }

  function NumbersOf(t: Table, vs: seq<nat>): (ns: seq<nat>)
    requires forall i :: 0 <= i < |vs| ==> vs[i] in t.values
    ensures |ns| == |vs|
  {
    seq(|vs|, i requires 0 <= i < |vs| => t.values[vs[i]])
  }

  /** A value has the number of its expression; other values have numbers made for them. */
  ghost predicate Keyed(t: Table, defs: seq<Def>, v: nat)
    requires v < |defs| && WellFormed(defs)
  {
    v in t.values &&
    if defs[v].Opaque? then t.values[v] < |t.origins| && t.origins[t.values[v]] == FromValue(v) else
    var vs := Operands(defs, defs[v]);
    && (forall i :: 0 <= i < |vs| ==> vs[i] in t.values)
    && (assert WellFormedDef(defs[v]);
        var e := ExpressionOf(defs, defs[v], NumbersOf(t, vs));
        e in t.expressions && t.expressions[e] == t.values[v])
  }

  /** Two values with one number are equal in each valuation: one can replace the other. */
  lemma EqualNumbersEqualValues(t: Table, defs: seq<Def>, m: Meaning, v: nat, w: nat)
    requires Sound(t, defs) && Satisfies(m, defs) && v in t.values && w in t.values && t.values[v] == t.values[w]
    ensures m.value(v) == m.value(w)
  {
  }

  /** Keyed values have equal numbers exactly when their expressions are equal. */
  lemma EqualNumbersEqualExpressions(t: Table, defs: seq<Def>, v: nat, w: nat)
    requires Consed(t) && WellFormed(defs) && v < |defs| && w < |defs| && !defs[v].Opaque? && !defs[w].Opaque?
    requires Keyed(t, defs, v) && Keyed(t, defs, w) && WellFormedDef(defs[v]) && WellFormedDef(defs[w])
    ensures t.values[v] == t.values[w]
      <==> ExpressionOf(defs, defs[v], NumbersOf(t, Operands(defs, defs[v]))) == ExpressionOf(defs, defs[w], NumbersOf(t, Operands(defs, defs[w])))
  {
  }

  // ----- which values have one number -----

  /** Operations, calls, and the results of intrinsics with overflow, which are numbered by opcode and operands. */
  predicate IsCalculation(defs: seq<Def>, d: Def) { d.Operation? || d.OverflowCall? || IsOverflowResult(defs, d) }

  function OpcodeOf(defs: seq<Def>, d: Def): nat
    requires IsCalculation(defs, d)
  {
    match d case Operation(op, _, _) => op case OverflowCall(_, _, _) => CALL case Extract(_, agg, _) => defs[agg].op
  }

  function TypeOf(d: Def): nat
    requires !d.Opaque?
  {
    match d case Operation(_, ty, _) => ty case OverflowCall(_, ty, _) => ty case Compare(_, _, ty, _, _) => ty
    case Extract(ty, _, _) => ty case Insert(ty, _, _, _) => ty
  }

  /** The operands are the other ones exchanged. */
  predicate Turned(ns: seq<nat>, ms: seq<nat>) { |ns| == |ms| == 2 && ns[0] == ms[1] && ns[1] == ms[0] }

  /**
   * Calculations with operands numbered `ns` and `ms` are alike if their operands are, or are exchanged and commutative.
   * The operands of an overflow's result are never exchanged: they must be in order to be like those of an operation.
   */
  predicate AlikeCalculations(defs: seq<Def>, d: Def, e: Def, ns: seq<nat>, ms: seq<nat>)
    requires IsCalculation(defs, d) && IsCalculation(defs, e)
  {
    && OpcodeOf(defs, d) == OpcodeOf(defs, e)
    && if OpcodeOf(defs, d) !in COMMUTATIVE || (!d.Operation? && !e.Operation?) then ns == ms else
       && (ns == ms || Turned(ns, ms))
       && (d.Operation? || (|ns| == 2 && ns[0] <= ns[1]))
       && (e.Operation? || (|ms| == 2 && ms[0] <= ms[1]))
  }

  /** One is the other, or its operands are exchanged and its predicate mirrored. */
  ghost predicate AlikeComparisons(d: Def, e: Def, ns: seq<nat>, ms: seq<nat>)
    requires d.Compare? && e.Compare?
  {
    && d.op == e.op
    && ((d.pred == e.pred && ns == ms) || (Mirrors(d.pred, e.pred) && Turned(ns, ms) && ns != ms))
  }

  /** When two definitions, with operands numbered `ns` and `ms`, are the same to the value table. */
  ghost predicate Alike(defs: seq<Def>, d: Def, e: Def, ns: seq<nat>, ms: seq<nat>)
    requires !d.Opaque? && !e.Opaque?
  {
    && TypeOf(d) == TypeOf(e)
    && if IsCalculation(defs, d) && IsCalculation(defs, e) then AlikeCalculations(defs, d, e, ns, ms)
       else if d.Compare? && e.Compare? then AlikeComparisons(d, e, ns, ms)
       else if IsCalculation(defs, d) || IsCalculation(defs, e) then false
       else if d.Extract? && e.Extract? then ns == ms && d.indices == e.indices
       else d.Insert? && e.Insert? && ns == ms && d.indices == e.indices
  }

  lemma ComparisonsAlike(defs: seq<Def>, d: Def, e: Def, ns: seq<nat>, ms: seq<nat>)
    requires d.Compare? && e.Compare? && WellFormedDef(d) && WellFormedDef(e) && |ns| == |ms| == 2
    ensures ExpressionOf(defs, d, ns) == ExpressionOf(defs, e, ms) <==> d.ty == e.ty && AlikeComparisons(d, e, ns, ms)
  {
    hide Swapped, Mirrors;
    SwappedMirrors(d.pred, e.pred);
    SwappedTwice(d.pred);
    SwappedTwice(e.pred);
    SwappedBelow(d.pred);
    SwappedBelow(e.pred);
    assert ns == [ns[0], ns[1]] && ms == [ms[0], ms[1]];
  }

  lemma PartsAlike(ns: seq<nat>, ms: seq<nat>, xs: seq<nat>, ys: seq<nat>)
    requires |ns| == |ms|
    ensures ns + xs == ms + ys <==> ns == ms && xs == ys
  {
    assert ns == (ns + xs)[..|ns|] && xs == (ns + xs)[|ns|..];
    assert ms == (ms + ys)[..|ms|] && ys == (ms + ys)[|ms|..];
  }

  lemma CalculationsAlike(defs: seq<Def>, d: Def, e: Def, ns: seq<nat>, ms: seq<nat>)
    requires IsCalculation(defs, d) && IsCalculation(defs, e) && WellFormedDef(d) && WellFormedDef(e)
    requires |ns| == |Operands(defs, d)| && |ms| == |Operands(defs, e)|
    ensures ExpressionOf(defs, d, ns) == ExpressionOf(defs, e, ms)
      <==> TypeOf(d) == TypeOf(e) && AlikeCalculations(defs, d, e, ns, ms)
  {
    if |ns| == |ms| == 2 { assert ns == [ns[0], ns[1]] && ms == [ms[0], ms[1]]; }
  }

  /** Opcodes tell the kinds of expressions apart. */
  lemma KindsApart(defs: seq<Def>, d: Def, ns: seq<nat>)
    requires !d.Opaque? && WellFormedDef(d) && |ns| == |Operands(defs, d)|
    requires IsOverflowResult(defs, d) ==> WellFormedDef(defs[d.agg])
    ensures var op := ExpressionOf(defs, d, ns).opcode;
      && (d.Compare? <==> op >= 256)
      && (op == EXTRACT_VALUE <==> d.Extract? && !IsOverflowResult(defs, d))
      && (op == INSERT_VALUE <==> d.Insert?)
  {
  }

  /** Two expressions are equal exactly if the definitions are alike. */
  lemma ExpressionsAlike(defs: seq<Def>, d: Def, e: Def, ns: seq<nat>, ms: seq<nat>)
    requires !d.Opaque? && !e.Opaque? && WellFormedDef(d) && WellFormedDef(e)
    requires forall v | 0 <= v < |defs| :: WellFormedDef(defs[v])
    requires |ns| == |Operands(defs, d)| && |ms| == |Operands(defs, e)|
    ensures ExpressionOf(defs, d, ns) == ExpressionOf(defs, e, ms) <==> Alike(defs, d, e, ns, ms)
  {
    KindsApart(defs, d, ns);
    KindsApart(defs, e, ms);
    hide WellFormedDef, CompareExpression;
    if IsCalculation(defs, d) && IsCalculation(defs, e) {
      hide AlikeCalculations, ExpressionOf, IsCalculation;
      CalculationsAlike(defs, d, e, ns, ms);
    } else if d.Compare? && e.Compare? {
      hide AlikeComparisons, ExpressionOf;
      ComparisonsAlike(defs, d, e, ns, ms);
    } else if d.Extract? && e.Extract? && !IsCalculation(defs, d) && !IsCalculation(defs, e) {
      PartsAlike(ns, ms, d.indices, e.indices);
    } else if d.Insert? && e.Insert? {
      PartsAlike(ns, ms, d.indices, e.indices);
    }
  }

  /** Keyed values have equal numbers exactly when their definitions are alike, by the numbers of their operands. */
  lemma EqualNumbersAlike(t: Table, defs: seq<Def>, v: nat, w: nat)
    requires Consed(t) && WellFormed(defs) && v < |defs| && w < |defs| && !defs[v].Opaque? && !defs[w].Opaque?
    requires Keyed(t, defs, v) && Keyed(t, defs, w)
    ensures t.values[v] == t.values[w]
      <==> Alike(defs, defs[v], defs[w], NumbersOf(t, Operands(defs, defs[v])), NumbersOf(t, Operands(defs, defs[w])))
  {
    var ns, ms := NumbersOf(t, Operands(defs, defs[v])), NumbersOf(t, Operands(defs, defs[w]));
    hide Alike, ExpressionOf, Operands, WellFormedDef, NumbersOf;
    assert WellFormedDef(defs[v]) && WellFormedDef(defs[w]);
    EqualNumbersEqualExpressions(t, defs, v, w);
    ExpressionsAlike(defs, defs[v], defs[w], ns, ms);
  }

  /** A value that is known only by identity shares its number with no other keyed value. */
  lemma OpaqueApart(t: Table, defs: seq<Def>, v: nat, w: nat)
    requires Consed(t) && WellFormed(defs) && v < |defs| && w < |defs| && defs[v].Opaque?
    requires Keyed(t, defs, v) && Keyed(t, defs, w)
    ensures t.values[v] == t.values[w] <==> v == w
  {
    hide ExpressionOf, Operands, WellFormedDef;
  }

  /** Two operations of one opcode and type have one number if their operands have, or have exchanged and the opcode commutes. */
  lemma OperationsNumbered(t: Table, defs: seq<Def>, v: nat, w: nat, op: nat, ty: nat, a: nat, b: nat, c: nat, d: nat)
    requires Consed(t) && WellFormed(defs) && v < |defs| && w < |defs| && Keyed(t, defs, v) && Keyed(t, defs, w)
    requires defs[v] == Operation(op, ty, [a, b]) && defs[w] == Operation(op, ty, [c, d])
    ensures {a, b, c, d} <= t.values.Keys
    ensures t.values[v] == t.values[w] <==>
      (t.values[a] == t.values[c] && t.values[b] == t.values[d])
      || (op in COMMUTATIVE && t.values[a] == t.values[d] && t.values[b] == t.values[c])
  {
    PairNumbered(t, defs, v, a, b);
    PairNumbered(t, defs, w, c, d);
    hide Keyed, Consed, WellFormed;
    EqualNumbersAlike(t, defs, v, w);
  }

  lemma PairNumbered(t: Table, defs: seq<Def>, v: nat, a: nat, b: nat)
    requires WellFormed(defs) && v < |defs| && Keyed(t, defs, v) && !defs[v].Opaque? && Operands(defs, defs[v]) == [a, b]
    ensures a in t.values && b in t.values && NumbersOf(t, Operands(defs, defs[v])) == [t.values[a], t.values[b]]
  {
    assert [a, b][0] == a && [a, b][1] == b;
  }

  /**
   * The first part of what an intrinsic with overflow returns has the number of the plain operation on the same
   * operands, unless that operation commutes and puts its operands in order, which nobody does for the intrinsic.
   */
  lemma OverflowNumbered(t: Table, defs: seq<Def>, v: nat, w: nat, call: nat, op: nat, ty: nat, a: nat, b: nat)
    requires Consed(t) && WellFormed(defs) && v < |defs| && w < |defs| && Keyed(t, defs, v) && Keyed(t, defs, w)
    requires call < |defs| && defs[call].OverflowCall? && defs[call].op == op && [a, b] <= defs[call].args
    requires defs[v] == Extract(ty, call, [0]) && defs[w] == Operation(op, ty, [a, b])
    ensures a in t.values && b in t.values
    ensures t.values[v] == t.values[w] <==> op !in COMMUTATIVE || t.values[a] <= t.values[b]
  {
    assert defs[call].args[..2] == [a, b];
    PairNumbered(t, defs, v, a, b);
    PairNumbered(t, defs, w, a, b);
    hide Keyed, Consed, WellFormed;
    EqualNumbersAlike(t, defs, v, w);
  }

  /** With the operands numbered in descending order, the sum of an intrinsic and the plain sum have different numbers. */
  lemma OverflowApartOnce(t: Table)
    requires var defs := [Opaque, Opaque, OverflowCall(8, 1, [1, 0]), Extract(0, 2, [0]), Operation(8, 0, [1, 0])];
      Consed(t) && WellFormed(defs) && Keyed(t, defs, 3) && Keyed(t, defs, 4)
    requires 0 in t.values && t.values[0] == 1 && 1 in t.values && t.values[1] == 2
    ensures t.values[3] != t.values[4]
  {
    hide Keyed, Consed, WellFormed;
    OverflowNumbered(t, [Opaque, Opaque, OverflowCall(8, 1, [1, 0]), Extract(0, 2, [0]), Operation(8, 0, [1, 0])], 3, 4, 2, 8, 0, 1, 0);
  }

  // ----- one step -----

  function WithValue(t: Table, v: nat, n: nat): Table { t.(values := t.values[v := n]) }

  /** A value that gets a number of its own. */
  lemma NewValue(t: Table, defs: seq<Def>, v: nat)
    requires Consed(t) && Sound(t, defs) && v !in t.values
    ensures var u := WithValue(t, v, |t.origins|).(origins := t.origins + [FromValue(v)]);
      Consed(u) && Sound(u, defs) && Grown(t, u)
  {
    var u := WithValue(t, v, |t.origins|).(origins := t.origins + [FromValue(v)]);
    forall m: Meaning, w | Satisfies(m, defs) && w in u.values ensures m.value(w) == Denoted(m, u.origins, u.values[w]) {
      if w != v { DenotedKept(m, t.origins, u.origins, t.values[w]); }
    }
  }

  /** An expression that gets a number of its own. */
  lemma NewExpression(t: Table, defs: seq<Def>, e: Expression)
    requires Consed(t) && Sound(t, defs) && e !in t.expressions && Below(e, |t.origins|)
    ensures var u := Table(t.values, t.expressions[e := |t.origins|], t.origins + [FromExpression(e)]);
      Consed(u) && Sound(u, defs) && Grown(t, u)
  {
    var u := Table(t.values, t.expressions[e := |t.origins|], t.origins + [FromExpression(e)]);
    forall m: Meaning, w | Satisfies(m, defs) && w in u.values ensures m.value(w) == Denoted(m, u.origins, u.values[w]) {
      DenotedKept(m, t.origins, u.origins, t.values[w]);
    }
  }

  lemma OperandsBelow(t: Table, defs: seq<Def>, v: nat)
    requires Consed(t) && WellFormed(defs) && v < |defs| && !defs[v].Opaque? && WellFormedDef(defs[v])
    requires forall i :: 0 <= i < |Operands(defs, defs[v])| ==> Operands(defs, defs[v])[i] in t.values
    ensures Below(ExpressionOf(defs, defs[v], NumbersOf(t, Operands(defs, defs[v]))), |t.origins|)
  {
  }

  /** A value that gets the number of its expression. */
  lemma KnownExpression(t: Table, defs: seq<Def>, v: nat)
    requires Consed(t) && Sound(t, defs) && WellFormed(defs) && v < |defs| && !defs[v].Opaque? && WellFormedDef(defs[v])
    requires v !in t.values && forall i :: 0 <= i < |Operands(defs, defs[v])| ==> Operands(defs, defs[v])[i] in t.values
    requires ExpressionOf(defs, defs[v], NumbersOf(t, Operands(defs, defs[v]))) in t.expressions
    ensures var e := ExpressionOf(defs, defs[v], NumbersOf(t, Operands(defs, defs[v])));
      var u := WithValue(t, v, t.expressions[e]);
      Consed(u) && Sound(u, defs) && Grown(t, u) && Keyed(u, defs, v)
  {
    var vs := Operands(defs, defs[v]);
    var ns := NumbersOf(t, vs);
    var e := ExpressionOf(defs, defs[v], ns);
    var u := WithValue(t, v, t.expressions[e]);
    hide ExpressionOf, Operands, WellFormedDef, Below;
    forall m: Meaning, w | Satisfies(m, defs) && w in u.values ensures m.value(w) == Denoted(m, u.origins, u.values[w]) {
      if w == v { ExpressionValue(t, defs, v, m); }
    }
    assert NumbersOf(u, vs) == ns;
  }

  lemma ExpressionValue(t: Table, defs: seq<Def>, v: nat, m: Meaning)
    requires Consed(t) && Sound(t, defs) && WellFormed(defs) && v < |defs| && !defs[v].Opaque? && WellFormedDef(defs[v])
    requires Satisfies(m, defs) && forall i :: 0 <= i < |Operands(defs, defs[v])| ==> Operands(defs, defs[v])[i] in t.values
    requires ExpressionOf(defs, defs[v], NumbersOf(t, Operands(defs, defs[v]))) in t.expressions
    ensures var e := ExpressionOf(defs, defs[v], NumbersOf(t, Operands(defs, defs[v])));
      Denoted(m, t.origins, t.expressions[e]) == m.value(v)
  {
    var vs := Operands(defs, defs[v]);
    var ns := NumbersOf(t, vs);
    var e := ExpressionOf(defs, defs[v], ns);
    hide ExpressionOf, Operands, Computed, WellFormed, Lawful;
    assert Meant(m, t.origins, vs, ns, |t.origins|);
    ExpressionMeans(m, defs, v, t.origins, ns, |t.origins|);
    ArgumentsAbove(m, t.origins, e, t.expressions[e], |t.origins|);
  }

  lemma GrownStays(t: Table)
    ensures Grown(t, t)
  {
  }

  lemma Positive(t: Table)
    requires Consed(t)
    ensures |t.origins| > 0
  {
  }

  lemma GrownOn(t: Table, u: Table, w: Table)
    requires Grown(t, u) && Grown(u, w)
    ensures Grown(t, w)
  {
  }

  /** Operands keep their numbers. */
  lemma NumbersKept(t: Table, u: Table, vs: seq<nat>)
    requires Grown(t, u) && forall i :: 0 <= i < |vs| ==> vs[i] in t.values
    ensures (forall i :: 0 <= i < |vs| ==> vs[i] in u.values) && NumbersOf(u, vs) == NumbersOf(t, vs)
  {
  }

  lemma OpaqueKeyed(t: Table, defs: seq<Def>, v: nat)
    requires WellFormed(defs) && v < |defs| && defs[v].Opaque? && v !in t.values
    ensures Keyed(WithValue(t, v, |t.origins|).(origins := t.origins + [FromValue(v)]), defs, v)
  {
  }

  lemma OperandsEarlier(defs: seq<Def>, v: nat)
    requires WellFormed(defs) && v < |defs|
    ensures WellFormedDef(defs[v]) && forall i :: 0 <= i < |Operands(defs, defs[v])| ==> Operands(defs, defs[v])[i] < v
  {
  }

  /** Only values up to `v` are new, and each of them has the number of its expression, or one made for it. */
  ghost predicate NewUpTo(t: Table, u: Table, defs: seq<Def>, v: int)
    requires WellFormed(defs)
  {
    forall w | w in u.values && w !in t.values :: w <= v && w < |defs| && Keyed(u, defs, w)
  }

  lemma KeyedKept(t: Table, u: Table, defs: seq<Def>, v: nat)
    requires WellFormed(defs) && v < |defs| && Keyed(t, defs, v) && Grown(t, u)
    ensures Keyed(u, defs, v)
  {
    var vs := Operands(defs, defs[v]);
    hide ExpressionOf, Operands, WellFormed;
    if !defs[v].Opaque? { NumbersKept(t, u, vs); }
  }

  lemma NumbersSnoc(t: Table, vs: seq<nat>, i: nat)
    requires i < |vs| && forall k :: 0 <= k <= i ==> vs[k] in t.values
    ensures NumbersOf(t, vs[..i + 1]) == NumbersOf(t, vs[..i]) + [t.values[vs[i]]]
  {
  }

  lemma NumbersNone(t: Table, vs: seq<nat>)
    ensures NumbersOf(t, vs[..0]) == []
  {
  }

  lemma TwoOperands(defs: seq<Def>, v: nat)
    requires v < |defs| && WellFormedDef(defs[v])
    ensures defs[v].Operation? && defs[v].op in COMMUTATIVE ==> |Operands(defs, defs[v])| == 2
  {
  }

  lemma NewNone(t: Table, defs: seq<Def>, v: int)
    requires WellFormed(defs)
    ensures NewUpTo(t, t, defs, v)
  {
  }

  lemma NewOn(t: Table, u: Table, w: Table, defs: seq<Def>, v: int, max: int)
    requires WellFormed(defs) && NewUpTo(t, u, defs, max) && NewUpTo(u, w, defs, v) && v <= max && Grown(u, w)
    ensures NewUpTo(t, w, defs, max)
  {
    hide Keyed, WellFormed;
    forall x | x in w.values && x !in t.values ensures x <= max && x < |defs| && Keyed(w, defs, x) {
      if x in u.values { KeyedKept(u, w, defs, x); }
    }
  }

  lemma NewBelow(t: Table, u: Table, defs: seq<Def>, v: nat)
    requires WellFormed(defs) && NewUpTo(t, u, defs, v - 1) && v !in t.values
    ensures v !in u.values
  {
    hide Keyed, WellFormed;
  }

  lemma NewOne(t: Table, u: Table, w: Table, defs: seq<Def>, v: nat)
    requires WellFormed(defs) && v < |defs| && NewUpTo(t, u, defs, v - 1) && Grown(u, w)
    requires w.values.Keys == u.values.Keys + {v} && Keyed(w, defs, v)
    ensures NewUpTo(t, w, defs, v)
  {
    hide Keyed, WellFormed;
    forall x | x in w.values && x !in t.values ensures x <= v && x < |defs| && Keyed(w, defs, x) {
      if x != v { KeyedKept(u, w, defs, x); }
    }
  }

  // ----- the table -----

  class ValueTable {
    const defs: seq<Def>
    var valueNumbering: map<nat, nat>
    var expressionNumbering: map<Expression, nat>
    var nextValueNumber: nat
    ghost var origins: seq<Origin>

    constructor (defs: seq<Def>)
      ensures this.defs == defs && Valid() && valueNumbering == map[]
    {
      this.defs := defs;
      valueNumbering, expressionNumbering, nextValueNumber := map[], map[], 1;
      origins := [Nothing];
    }

    ghost function Contents(): Table
      reads this
    {
      Table(valueNumbering, expressionNumbering, origins)
    }

    ghost predicate Valid()
      reads this
    {
      nextValueNumber == |origins| && Consed(Contents()) && Sound(Contents(), defs)
    }

    /** The number of a value, which gets one if it has none. */
    method LookupOrAdd(v: nat) returns (n: nat)
      requires Valid() && WellFormed(defs) && v < |defs|
      modifies this
      ensures Valid() && Grown(old(Contents()), Contents()) && v in valueNumbering && n == valueNumbering[v]
      ensures v !in old(valueNumbering) ==> Keyed(Contents(), defs, v)
      ensures NewUpTo(old(Contents()), Contents(), defs, v)
      decreases v, 2
    {
      hide Consed, Sound, Grown, Keyed, WellFormed, ExpressionOf, Operands, WellFormedDef, Below, NewUpTo;
      ghost var before := Contents();
      GrownStays(before);
      NewNone(before, defs, v);
      if v in valueNumbering { return valueNumbering[v]; }
      if defs[v].Opaque? {
        Positive(before);
        NewValue(before, defs, v);
        OpaqueKeyed(before, defs, v);
        valueNumbering := valueNumbering[v := nextValueNumber];
        origins := origins + [FromValue(v)];
        n := nextValueNumber;
        nextValueNumber := nextValueNumber + 1;
        NewNone(before, defs, v - 1);
        NewOne(before, before, Contents(), defs, v);
        return;
      }
      OperandsEarlier(defs, v);
      ghost var vs := Operands(defs, defs[v]);
      var e := CreateExpression(v);
      ghost var mid := Contents();
      OperandsBelow(mid, defs, v);
      n := NumberExpression(e);
      ghost var after := Contents();
      NumbersKept(mid, after, vs);
      NewBelow(before, mid, defs, v);
      KnownExpression(after, defs, v);
      GrownOn(before, mid, after);
      GrownOn(before, after, WithValue(after, v, n));
      valueNumbering := valueNumbering[v := n];
      GrownOn(mid, after, Contents());
      NewOne(before, mid, Contents(), defs, v);
    }

    /** The expression of a value, whose operands all get numbers first. */
    method CreateExpression(v: nat) returns (e: Expression)
      requires Valid() && WellFormed(defs) && v < |defs| && WellFormedDef(defs[v])
      requires forall i :: 0 <= i < |Operands(defs, defs[v])| ==> Operands(defs, defs[v])[i] < v
      modifies this
      ensures Valid() && Grown(old(Contents()), Contents()) && NewUpTo(old(Contents()), Contents(), defs, v - 1)
      ensures forall i :: 0 <= i < |Operands(defs, defs[v])| ==> Operands(defs, defs[v])[i] in valueNumbering
      ensures e == ExpressionOf(defs, defs[v], NumbersOf(Contents(), Operands(defs, defs[v])))
      decreases v, 1
    {
      hide Consed, Sound, Grown, Keyed, WellFormed, ExpressionOf, Operands, WellFormedDef, NewUpTo, NumbersOf;
      var vs := Operands(defs, defs[v]);
      TwoOperands(defs, v);
      ghost var before := Contents();
      NewNone(before, defs, v - 1);
      GrownStays(before);
      NumbersNone(before, vs);
      var ns: seq<nat>, i := [], 0;
      while i < |vs|
        invariant 0 <= i <= |vs| && Valid() && Grown(before, Contents()) && NewUpTo(before, Contents(), defs, v - 1)
        invariant forall k :: 0 <= k < i ==> vs[k] in valueNumbering
        invariant ns == NumbersOf(Contents(), vs[..i])
      {
        ghost var mid := Contents();
        var n := LookupOrAdd(vs[i]);
        GrownOn(before, mid, Contents());
        NewOn(before, mid, Contents(), defs, vs[i], v - 1);
        NumbersKept(mid, Contents(), vs[..i]);
        NumbersSnoc(Contents(), vs, i);
        ns := ns + [n];
        i := i + 1;
      }
      assert vs[..i] == vs;
      e := ExpressionOf(defs, defs[v], ns);
    }

    /** The number of an expression, which gets one if it has none. */
    method NumberExpression(e: Expression) returns (n: nat)
      requires Valid() && Below(e, |origins|)
      modifies this
      ensures Valid() && Grown(old(Contents()), Contents()) && valueNumbering == old(valueNumbering)
      ensures e in expressionNumbering && n == expressionNumbering[e]
      ensures n < old(nextValueNumber) ==> Contents() == old(Contents())
    {
      hide Consed, Sound, Grown, Below;
      GrownStays(Contents());
      if e !in expressionNumbering {
        NewExpression(Contents(), defs, e);
        expressionNumbering := expressionNumbering[e := nextValueNumber];
        origins := origins + [FromExpression(e)];
        nextValueNumber := nextValueNumber + 1;
      }
      n := expressionNumbering[e];
    }

    /** The number that a comparison would have if there were an instruction for it. */
    method LookupOrAddCmp(op: nat, pred: nat, ty: nat, lhs: nat, rhs: nat) returns (n: nat)
      requires Valid() && WellFormed(defs) && lhs < |defs| && rhs < |defs| && op in COMPARES && pred < 256
      modifies this
      ensures Valid() && Grown(old(Contents()), Contents()) && n < nextValueNumber
      ensures lhs in valueNumbering && rhs in valueNumbering
        && (var e := CompareExpression(op, pred, ty, valueNumbering[lhs], valueNumbering[rhs]);
            e in expressionNumbering && n == expressionNumbering[e])
      ensures forall m: Meaning | Satisfies(m, defs) ::
        Denoted(m, origins, n) == m.apply(Packed(op, pred), ty, [m.value(lhs), m.value(rhs)])
      ensures forall v: nat | v < |defs| && defs[v] == Compare(op, pred, ty, lhs, rhs) && Keyed(Contents(), defs, v) ::
        valueNumbering[v] == n
    {
      hide Consed, Sound, Grown, Keyed, WellFormed, CompareExpression, Below, Satisfies;
      ghost var before := Contents();
      var l := LookupOrAdd(lhs);
      ghost var mid := Contents();
      var r := LookupOrAdd(rhs);
      ghost var late := Contents();
      GrownOn(before, mid, late);
      NumbersKept(mid, late, [lhs]);
      assert NumbersOf(mid, [lhs])[0] == l && NumbersOf(late, [lhs])[0] == l && [lhs][0] in late.values;
      CompareBelow(late, op, pred, ty, lhs, rhs);
      n := NumberExpression(CompareExpression(op, pred, ty, l, r));
      GrownOn(before, late, Contents());
      NumbersKept(late, Contents(), [lhs, rhs]);
      assert NumbersOf(late, [lhs, rhs]) == [l, r];
      assert NumbersOf(Contents(), [lhs, rhs])[0] == l && NumbersOf(Contents(), [lhs, rhs])[1] == r;
      assert [lhs, rhs][0] in valueNumbering && [lhs, rhs][1] in valueNumbering;
      forall m: Meaning | Satisfies(m, defs)
        ensures Denoted(m, origins, n) == m.apply(Packed(op, pred), ty, [m.value(lhs), m.value(rhs)])
      {
        CompareMeans(Contents(), defs, op, pred, ty, lhs, rhs, m);
      }
      NumberBelow(Contents(), CompareExpression(op, pred, ty, l, r));
      forall v: nat | v < |defs| && defs[v] == Compare(op, pred, ty, lhs, rhs) && Keyed(Contents(), defs, v)
        ensures v in valueNumbering && valueNumbering[v] == n
      {
        CompareNumbered(Contents(), defs, v);
      }
    }

    /** Gives a value a known number, unless it has one. */
    method Add(v: nat, num: nat)
      requires Valid() && 0 < num < nextValueNumber
      requires forall m: Meaning | Satisfies(m, defs) :: m.value(v) == Denoted(m, origins, num)
      modifies this
      ensures Valid() && Grown(old(Contents()), Contents()) && origins == old(origins)
      ensures valueNumbering == if v in old(valueNumbering) then old(valueNumbering) else old(valueNumbering)[v := num]
    {
      if v !in valueNumbering { valueNumbering := valueNumbering[v := num]; }
    }

    /** Forgets a value, but not the expression it was numbered by. */
    method Erase(v: nat)
      requires Valid()
      modifies this
      ensures Valid() && valueNumbering == old(valueNumbering) - {v}
      ensures expressionNumbering == old(expressionNumbering) && origins == old(origins)
    {
      valueNumbering := valueNumbering - {v};
    }

    method Clear()
      modifies this
      ensures Valid() && valueNumbering == map[] && nextValueNumber == 1
    {
      valueNumbering, expressionNumbering, nextValueNumber := map[], map[], 1;
      origins := [Nothing];
    }
  }

  lemma CompareNumbered(t: Table, defs: seq<Def>, v: nat)
    requires WellFormed(defs) && v < |defs| && Keyed(t, defs, v) && defs[v].Compare?
    ensures v in t.values && defs[v].lhs in t.values && defs[v].rhs in t.values
    ensures var d := defs[v];
      var e := CompareExpression(d.op, d.pred, d.ty, t.values[d.lhs], t.values[d.rhs]);
      e in t.expressions && t.values[v] == t.expressions[e]
  {
    hide CompareExpression, WellFormed;
    assert Operands(defs, defs[v])[0] == defs[v].lhs && Operands(defs, defs[v])[1] == defs[v].rhs;
  }

  lemma NumberBelow(t: Table, e: Expression)
    requires Consed(t) && e in t.expressions
    ensures t.expressions[e] < |t.origins|
  {
  }

  lemma CompareBelow(t: Table, op: nat, pred: nat, ty: nat, lhs: nat, rhs: nat)
    requires Consed(t) && lhs in t.values && rhs in t.values
    ensures Below(CompareExpression(op, pred, ty, t.values[lhs], t.values[rhs]), |t.origins|)
  {
  }

  lemma CompareMeans(t: Table, defs: seq<Def>, op: nat, pred: nat, ty: nat, lhs: nat, rhs: nat, m: Meaning)
    requires Consed(t) && Sound(t, defs) && Satisfies(m, defs) && op in COMPARES && pred < 256 && lhs in t.values && rhs in t.values
    requires CompareExpression(op, pred, ty, t.values[lhs], t.values[rhs]) in t.expressions
    ensures var e := CompareExpression(op, pred, ty, t.values[lhs], t.values[rhs]);
      Denoted(m, t.origins, t.expressions[e]) == m.apply(Packed(op, pred), ty, [m.value(lhs), m.value(rhs)])
  {
    var vs, ns := [lhs, rhs], [t.values[lhs], t.values[rhs]];
    var e := CompareExpression(op, pred, ty, ns[0], ns[1]);
    var n := |t.origins|;
    assert Meant(m, t.origins, vs, ns, n) && Numbers(e) == 2;
    ComparedExchanged(m, op, pred, ty, m.value(rhs), m.value(lhs));
    hide Meant, Swapped, Satisfies, Sound;
    ArgumentsSorted(m, t.origins, vs, ns, n, e);
    ArgumentsAbove(m, t.origins, e, t.expressions[e], n);
  }
}
