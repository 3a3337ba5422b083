/** Unrolled loops: their form, and that one round is as many iterations as there are copies. */
module LoopUnrolling {
  import opened Arithmetic
  import opened LoopProgram

  datatype Loop = Loop(code: Program, header: Label, latch: Label)

  predicate Sets(b: Block, r: Reg) { r in b.phis || exists i :: 0 <= i < |b.body| && b.body[i].dst == r }

  /** The register gets its value in the loop. */
  predicate InLoop(l: Loop, r: Reg) { exists b :: b in l.code.blocks && Sets(l.code.blocks[b], r) }

  predicate Original(v: Val) { v.Const? || v.reg.copy == 0 }

  predicate IsPhi(l: Loop, r: Reg) { l.header in l.code.blocks && r in l.code.blocks[l.header].phis }

  /** Phis with original registers, operands and edges. */
  predicate OriginalPhis(phis: Phis) {
    forall r | r in phis :: r.copy == 0 && forall e | e in phis[r] :: e.copy == 0 && Original(phis[r][e])
  }

  predicate OriginalBlock(l: Loop, b: Block) {
    && OriginalPhis(b.phis)
    && (forall i :: 0 <= i < |b.body| ==> b.body[i].dst.copy == 0 && !IsPhi(l, b.body[i].dst))
    && (forall i, a :: 0 <= i < |b.body| && 0 <= a < |b.body[i].args| ==> Original(b.body[i].args[a]))
    && (b.term.Branch? ==> Original(b.term.cond))
    && forall t | t in Targets(b.term) :: t.copy == 0 && (t in l.code.blocks || t in l.code.exits)
  }

  /** Phis behind the header: their edges come from the loop. */
  predicate InnerPhis(l: Loop, phis: Phis) {
    forall r | r in phis :: !IsPhi(l, r) && forall e | e in phis[r] :: e in l.code.blocks
  }

  /** One latch, which alone goes back to the header or else leaves the loop, and SSA form for the header's phis. */
  ghost predicate Valid(l: Loop) {
    var blocks := l.code.blocks;
    && l.header in blocks && l.latch in blocks
    && (forall b | b in blocks :: b.copy == 0 && b !in l.code.exits && OriginalBlock(l, blocks[b]))
    && (forall b | b in blocks :: b != l.latch ==> l.header !in Targets(blocks[b].term))
    && (forall b | b in blocks :: b != l.header ==> InnerPhis(l, blocks[b].phis))
    && (forall e | e in l.code.exits :: e.copy == 0 && OriginalPhis(l.code.exits[e]))
    && (var t := blocks[l.latch].term;
        t.Branch? && (t.yes == l.header <==> t.no in l.code.exits) && (t.no == l.header <==> t.yes in l.code.exits)
        && (t.yes == l.header || t.no == l.header))
    && forall r | IsPhi(l, r) :: l.latch in blocks[l.header].phis[r]
  }

  /** The value of a header's phi in the next iteration. */
  function LatchValue(l: Loop, r: Reg): (v: Val)
    requires Valid(l) && IsPhi(l, r)
    ensures Original(v)
  {
    assert Original(l.code.blocks[l.header].phis[r][l.latch]);
    l.code.blocks[l.header].phis[r][l.latch]
  }

  // ----- the closed form of the unrolled loop -----

  /** What a value of the loop is called in copy `it`: a phi of the header is the latch's value in the copy before. */
  function Renamed(l: Loop, it: nat, v: Val): Val
    requires Valid(l)
  {
    if it == 0 || v.Const? || !InLoop(l, v.reg) then v
    else if IsPhi(l, v.reg) then Renamed(l, it - 1, LatchValue(l, v.reg))
    else Use(Reg(v.reg.name, it))
  }

  function RenamedLabel(l: Loop, it: nat, b: Label): Label { if b in l.code.blocks then Label(b.block, it) else b }

  function RenamedInstr(l: Loop, it: nat, i: Instr): Instr
    requires Valid(l)
  {
    Instr(Reg(i.dst.name, it), i.op, seq(|i.args|, a requires 0 <= a < |i.args| => Renamed(l, it, i.args[a])))
  }

  function RenamedBody(l: Loop, it: nat, body: seq<Instr>): seq<Instr>
    requires Valid(l)
  {
    seq(|body|, i requires 0 <= i < |body| => RenamedInstr(l, it, body[i]))
  }

  function RenamedTerm(l: Loop, it: nat, t: Term): Term
    requires Valid(l)
  {
    match t
    case Goto(dest) => Goto(RenamedLabel(l, it, dest))
    case Branch(cond, yes, no) => Branch(Renamed(l, it, cond), RenamedLabel(l, it, yes), RenamedLabel(l, it, no))
  }

  /** The edges of a phi, in copy `it`. */
  function RenamedEdges(l: Loop, it: nat, edges: map<Label, Val>): map<Label, Val>
    requires Valid(l) && forall e | e in edges :: e.copy == 0
  {
    map e | e in edges :: Label(e.block, it) := Renamed(l, it, edges[e])
  }

  function RenamedPhis(l: Loop, it: nat, phis: Phis): Phis
    requires Valid(l) && OriginalPhis(phis)
  {
    map r | r in phis :: Reg(r.name, it) := RenamedEdges(l, it, phis[r])
  }

  /** The header's phis: the latch's value comes from the last copy. */
  function HeaderPhis(l: Loop, count: nat): Phis
    requires Valid(l) && count > 0
  {
    var phis := l.code.blocks[l.header].phis;
    map r | r in phis ::
      phis[r] - {l.latch} + map[Label(l.latch.block, count - 1) := Renamed(l, count - 1, LatchValue(l, r))]
  }

  /** The copies of the latch lead to the next copy of the header, only the last one tests. */
  function CopyTerm(l: Loop, count: nat, b: Label, it: nat): Term
    requires Valid(l) && it < count && b in l.code.blocks
  {
    var t := l.code.blocks[b].term;
    if b != l.latch then RenamedTerm(l, it, t)
    else if it + 1 < count then Goto(Label(l.header.block, it + 1))
    else Branch(Renamed(l, it, t.cond), t.yes, t.no)
  }

  function CopyOf(l: Loop, count: nat, b: Label, it: nat): Block
    requires Valid(l) && it < count && b in l.code.blocks
  {
    var o := l.code.blocks[b];
    Block(if b != l.header then RenamedPhis(l, it, o.phis) else if it == 0 then HeaderPhis(l, count) else map[],
          RenamedBody(l, it, o.body), CopyTerm(l, count, b, it))
  }

  /** An exit's edges: one from each copy of a block, except from the latches that no longer leave. */
  function ExitEdges(l: Loop, count: nat, edges: map<Label, Val>): map<Label, Val>
    requires Valid(l) && forall e | e in edges :: e.copy == 0
  {
    map e, it | e in edges && 0 <= it < (if e in l.code.blocks then count else 1) && !(e == l.latch && it + 1 < count)
      :: Label(e.block, it) := Renamed(l, it, edges[e])
  }

  function ExitPhis(l: Loop, count: nat, phis: Phis): Phis
    requires Valid(l) && OriginalPhis(phis)
  {
    map r | r in phis :: ExitEdges(l, count, phis[r])
  }

  function UnrolledBlocks(l: Loop, count: nat): map<Label, Block>
    requires Valid(l)
  {
    map b, it | b in l.code.blocks && 0 <= it < count :: Label(b.block, it) := CopyOf(l, count, b, it)
  }

  function Unrolled(l: Loop, count: nat): Program
    requires Valid(l)
  {
    Program(UnrolledBlocks(l, count), map e | e in l.code.exits :: ExitPhis(l, count, l.code.exits[e]))
  }

  // ----- one step in a copy is one step of the loop -----

  lemma {:induction false} RenamedCopy(l: Loop, it: nat, v: Val)
    requires Valid(l) && Original(v)
    ensures Renamed(l, it, v).Use? ==> Renamed(l, it, v).reg.copy <= it
    ensures Renamed(l, it, v).Use? && v.Use? && InLoop(l, v.reg) && !IsPhi(l, v.reg) ==> Renamed(l, it, v) == Use(Reg(v.reg.name, it))
  {
    hide Valid, InLoop;
    if it > 0 && v.Use? && InLoop(l, v.reg) && IsPhi(l, v.reg) {
      RenamedCopy(l, it - 1, LatchValue(l, v.reg));
    }
  }

  /** Setting one register of a copy leaves what other registers are called there alone. */
  lemma RenamedApart(l: Loop, it: nat, x: Reg, r: Reg)
    requires Valid(l) && InLoop(l, x) && x != r && x.copy == r.copy == 0 && InLoop(l, r) && !IsPhi(l, r)
    ensures Renamed(l, it, Use(x)) != Use(Reg(r.name, it))
  {
    hide Valid, InLoop;
    if it > 0 && IsPhi(l, x) {
      RenamedCopy(l, it - 1, LatchValue(l, x));
    }
  }

  /** Registers from outside the loop keep their names. */
  ghost predicate Outer(l: Loop, outer: Env) {
    forall r | r in outer :: r.copy == 0 && !InLoop(l, r)
  }

  /** Each register set in this iteration has its value in copy `it` too. */
  ghost predicate Agrees(l: Loop, it: nat, env: Env, env2: Env, outer: Env)
    requires Valid(l)
  {
    && (forall r | r in env :: r.copy == 0 && InLoop(l, r) && Value(Renamed(l, it, Use(r)), env2, outer) == Some(env[r]))
    && forall k | k in env2 :: InLoop(l, Reg(k.name, 0))
  }

  lemma ValueAgrees(l: Loop, it: nat, v: Val, env: Env, env2: Env, outer: Env)
    requires Valid(l) && Outer(l, outer) && Agrees(l, it, env, env2, outer) && Original(v) && Value(v, env, outer).Some?
    ensures Value(Renamed(l, it, v), env2, outer) == Value(v, env, outer)
  {
    if v.Use? && v.reg !in env {
      assert v.reg in outer && Reg(v.reg.name, 0) == v.reg;
    }
  }

  lemma {:induction false} ValuesAgree(l: Loop, it: nat, vs: seq<Val>, ws: seq<Val>, env: Env, env2: Env, outer: Env)
    requires Valid(l) && Outer(l, outer) && Agrees(l, it, env, env2, outer) && Values(vs, env, outer).Some?
    requires |vs| == |ws| && forall a :: 0 <= a < |vs| ==> Original(vs[a]) && ws[a] == Renamed(l, it, vs[a])
    ensures Values(ws, env2, outer) == Values(vs, env, outer)
  {
    if vs != [] {
      var n := |vs| - 1;
      ValuesAgree(l, it, vs[..n], ws[..n], env, env2, outer);
      ValueAgrees(l, it, vs[n], env, env2, outer);
    }
  }

  lemma SetAgrees(l: Loop, it: nat, r: Reg, x: int, env: Env, env2: Env, outer: Env)
    requires Valid(l) && Agrees(l, it, env, env2, outer) && InLoop(l, r) && r.copy == 0 && !IsPhi(l, r)
    ensures Agrees(l, it, env[r := x], env2[Reg(r.name, it) := x], outer)
  {
    hide Valid, InLoop, IsPhi;
    assert Reg(Reg(r.name, it).name, 0) == r;
    forall y | y in env[r := x]
      ensures y.copy == 0 && InLoop(l, y)
      ensures Value(Renamed(l, it, Use(y)), env2[Reg(r.name, it) := x], outer) == Some(env[r := x][y])
    {
      if y == r { RenamedCopy(l, it, Use(r)); } else { RenamedApart(l, it, y, r); }
    }
  }

  predicate OriginalInstr(l: Loop, i: Instr) {
    && i.dst.copy == 0 && InLoop(l, i.dst) && !IsPhi(l, i.dst)
    && forall a :: 0 <= a < |i.args| ==> Original(i.args[a])
  }

  lemma InstrAgrees(l: Loop, it: nat, i: Instr, s: Ran, env2: Env, outer: Env, sem: Semantics) returns (e: Env)
    requires Valid(l) && Outer(l, outer) && Agrees(l, it, s.env, env2, outer) && OriginalInstr(l, i)
    requires RunInstr(i, s, outer, sem).Some?
    ensures RunInstr(RenamedInstr(l, it, i), Ran(env2, s.mem), outer, sem)
      == Some(Ran(e, RunInstr(i, s, outer, sem).value.mem))
    ensures Agrees(l, it, RunInstr(i, s, outer, sem).value.env, e, outer)
  {
    hide Valid, InLoop, Agrees, Renamed, Values;
    ValuesAgree(l, it, i.args, RenamedInstr(l, it, i).args, s.env, env2, outer);
    var x := sem(i.op, Values(i.args, s.env, outer).value, s.mem).0;
    SetAgrees(l, it, i.dst, x, s.env, env2, outer);
    e := env2[Reg(i.dst.name, it) := x];
  }

  lemma {:induction false} BodyAgrees(l: Loop, it: nat, body: seq<Instr>, s: Ran, env2: Env, outer: Env, sem: Semantics)
    returns (e: Env)
    requires Valid(l) && Outer(l, outer) && Agrees(l, it, s.env, env2, outer)
    requires forall i :: 0 <= i < |body| ==> OriginalInstr(l, body[i])
    requires RunBody(body, s, outer, sem).Some?
    ensures RunBody(RenamedBody(l, it, body), Ran(env2, s.mem), outer, sem)
      == Some(Ran(e, RunBody(body, s, outer, sem).value.mem))
    ensures Agrees(l, it, RunBody(body, s, outer, sem).value.env, e, outer)
  {
    hide Valid, InLoop, Agrees, Outer, RenamedInstr, OriginalInstr, RunInstr;
    if body == [] {
      e := env2;
    } else {
      var n := |body| - 1;
      e := BodyAgrees(l, it, body[..n], s, env2, outer, sem);
      assert RenamedBody(l, it, body)[..n] == RenamedBody(l, it, body[..n]);
      e := InstrAgrees(l, it, body[n], RunBody(body[..n], s, outer, sem).value, e, outer, sem);
    }
  }

  // ----- edges -----

  lemma BlockFacts(l: Loop, b: Label)
    requires Valid(l) && b in l.code.blocks
    ensures var o := l.code.blocks[b];
      && b.copy == 0 && b !in l.code.exits && OriginalPhis(o.phis)
      && (forall i :: 0 <= i < |o.body| ==> OriginalInstr(l, o.body[i]))
      && (o.term.Branch? ==> Original(o.term.cond))
      && (forall t | t in Targets(o.term) :: t.copy == 0 && (t in l.code.blocks || t in l.code.exits))
      && (b != l.latch ==> l.header !in Targets(o.term))
      && (b != l.header ==> InnerPhis(l, o.phis))
      && forall r | r in o.phis :: InLoop(l, r)
  {
    var o := l.code.blocks[b];
    assert OriginalBlock(l, o);
    forall i | 0 <= i < |o.body| ensures OriginalInstr(l, o.body[i]) { assert Sets(o, o.body[i].dst); }
    forall r | r in o.phis ensures InLoop(l, r) { assert Sets(o, r); }
  }

  /** What comes in along an edge. */
  lemma EdgeAgrees(l: Loop, it: nat, v: Val, env: Env, env2: Env, outer: Env)
    requires Valid(l) && Outer(l, outer) && Agrees(l, it, env, env2, outer) && Original(v)
    ensures Value(v, env, outer).Some? ==> Value(Renamed(l, it, v), env2, outer) == Value(v, env, outer)
  {
    if Value(v, env, outer).Some? { ValueAgrees(l, it, v, env, env2, outer); }
  }

  /** Copy `it` of the same values. */
  ghost predicate Carried(it: nat, p: Env, q: Env) {
    && (forall r | r in p :: Reg(r.name, it) in q && q[Reg(r.name, it)] == p[r])
    && forall k | k in q :: Reg(k.name, 0) in p && k.copy == it
  }

  lemma RenamedEdge(l: Loop, it: nat, phis: Phis, k: Reg, from: Label)
    requires Valid(l) && OriginalPhis(phis) && k in RenamedPhis(l, it, phis) && from.copy == 0
    ensures var r, q := Reg(k.name, 0), RenamedPhis(l, it, phis)[k];
      && k.copy == it && r in phis
      && (from in phis[r] ==> Original(phis[r][from]) && Label(from.block, it) in q)
      && (from in phis[r] ==> q[Label(from.block, it)] == Renamed(l, it, phis[r][from]))
  {
    hide Valid, Renamed;
    var r :| r in phis && k == Reg(r.name, it);
    assert r == Reg(k.name, 0);
    if from in phis[r] {
      var x := RenamedEdges(l, it, phis[r]);
      assert Label(from.block, it) in x;
      var e :| e in phis[r] && Label(from.block, it) == Label(e.block, it) && x[Label(from.block, it)] == Renamed(l, it, phis[r][e]);
      assert e == from;
    }
  }

  lemma PhisAgree(l: Loop, it: nat, phis: Phis, from: Label, env: Env, env2: Env, outer: Env)
    requires Valid(l) && Outer(l, outer) && Agrees(l, it, env, env2, outer) && OriginalPhis(phis)
    requires PhisDefined(phis, from, env, outer) && from.copy == 0
    ensures var q, f := RenamedPhis(l, it, phis), Label(from.block, it);
      PhisDefined(q, f, env2, outer) && Carried(it, PhiValues(phis, from, env, outer), PhiValues(q, f, env2, outer))
  {
    hide Valid, Agrees, Outer, OriginalPhis, RenamedPhis, Value;
    var q, f := RenamedPhis(l, it, phis), Label(from.block, it);
    RenamedKeys(l, it, phis);
    forall k | k in q
      ensures Reg(k.name, 0) in phis && k.copy == it && f in q[k]
      ensures Value(q[k][f], env2, outer) == Value(phis[Reg(k.name, 0)][from], env, outer)
    {
      PhiAgrees(l, it, phis, k, from, env, env2, outer);
    }
  }

  lemma RenamedKeys(l: Loop, it: nat, phis: Phis)
    requires Valid(l) && OriginalPhis(phis)
    ensures forall r | r in phis :: r.copy == 0 && Reg(r.name, it) in RenamedPhis(l, it, phis)
  {
    hide Valid, RenamedEdges;
  }

  lemma PhiAgrees(l: Loop, it: nat, phis: Phis, k: Reg, from: Label, env: Env, env2: Env, outer: Env)
    requires Valid(l) && Outer(l, outer) && Agrees(l, it, env, env2, outer) && OriginalPhis(phis)
    requires PhisDefined(phis, from, env, outer) && from.copy == 0 && k in RenamedPhis(l, it, phis)
    ensures var r, q, f := Reg(k.name, 0), RenamedPhis(l, it, phis), Label(from.block, it);
      r in phis && k.copy == it && f in q[k] && Value(q[k][f], env2, outer) == Value(phis[r][from], env, outer)
  {
    hide Valid, Agrees, Outer, Renamed, RenamedEdges, RenamedPhis, OriginalPhis, Value;
    RenamedEdge(l, it, phis, k, from);
    EdgeAgrees(l, it, phis[Reg(k.name, 0)][from], env, env2, outer);
  }

  /** All phis of a block set at once. */
  lemma PhisSetAgree(l: Loop, it: nat, p: Env, q: Env, env: Env, env2: Env, outer: Env)
    requires Valid(l) && Agrees(l, it, env, env2, outer)
    requires Carried(it, p, q) && forall r | r in p :: r.copy == 0 && InLoop(l, r) && !IsPhi(l, r)
    ensures Agrees(l, it, env + p, env2 + q, outer)
  {
    hide Valid, InLoop, IsPhi;
    forall y | y in env + p
      ensures y.copy == 0 && InLoop(l, y) && Value(Renamed(l, it, Use(y)), env2 + q, outer) == Some((env + p)[y])
    {
      if y in p {
        RenamedCopy(l, it, Use(y));
      } else {
        forall k | k in q ensures Renamed(l, it, Use(y)) != Use(k) { RenamedApart(l, it, y, Reg(k.name, 0)); }
      }
    }
  }

  lemma UnrolledBlock(l: Loop, count: nat, b: Label, it: nat)
    requires Valid(l) && b in l.code.blocks && it < count
    ensures Label(b.block, it) in Unrolled(l, count).blocks
    ensures Unrolled(l, count).blocks[Label(b.block, it)] == CopyOf(l, count, b, it)
  {
    AllOriginal(l);
    hide Valid, CopyOf, ExitPhis;
    var m := Unrolled(l, count).blocks;
    assert Label(b.block, it) in m;
    var c, i :| c in l.code.blocks && 0 <= i < count && Label(b.block, it) == Label(c.block, i) && m[Label(b.block, it)] == CopyOf(l, count, c, i);
    assert c == b;
  }

  lemma AllOriginal(l: Loop)
    requires Valid(l)
    ensures forall c | c in l.code.blocks :: c.copy == 0 && c !in l.code.exits
  {
  }

  lemma UnrolledExit(l: Loop, count: nat, e: Label)
    requires Valid(l) && e in l.code.exits
    ensures e !in Unrolled(l, count).blocks && e in Unrolled(l, count).exits
    ensures OriginalPhis(l.code.exits[e]) && Unrolled(l, count).exits[e] == ExitPhis(l, count, l.code.exits[e])
  {
    AllOriginal(l);
  }

  /** The loop in a block, and the unrolled loop in copy `it` of it. */
  ghost predicate Abreast(l: Loop, it: nat, s: State, u: State, outer: Env)
    requires Valid(l)
  {
    && s.At? && u.At? && s.place in l.code.blocks && u.place == Label(s.place.block, it) && u.mem == s.mem
    && Agrees(l, it, s.env, u.env, outer)
  }

  /** Within an iteration, an edge goes to the same copy of the next block. */
  lemma EnterInner(l: Loop, count: nat, it: nat, b: Label, t: Label, env: Env, env2: Env, mem: Memory, outer: Env)
    requires Valid(l) && Outer(l, outer) && Agrees(l, it, env, env2, outer) && it < count
    requires b in l.code.blocks && t in l.code.blocks && t != l.header
    requires Enter(l.code, l.header, b, t, env, mem, outer).At?
    ensures Abreast(l, it, Enter(l.code, l.header, b, t, env, mem, outer),
      Enter(Unrolled(l, count), l.header, Label(b.block, it), Label(t.block, it), env2, mem, outer), outer)
  {
    BlockFacts(l, b);
    BlockFacts(l, t);
    UnrolledBlock(l, count, t, it);
    var phis := l.code.blocks[t].phis;
    hide Valid, Agrees, Renamed, Unrolled, RenamedPhis, InLoop, IsPhi, RenamedBody, CopyTerm;
    HeaderOriginal(l);
    PhisAgree(l, it, phis, b, env, env2, outer);
    PhisSetAgree(l, it, PhiValues(phis, b, env, outer), PhiValues(RenamedPhis(l, it, phis), Label(b.block, it), env2, outer), env, env2, outer);
  }

  lemma HeaderOriginal(l: Loop)
    requires Valid(l)
    ensures l.header in l.code.blocks && l.latch in l.code.blocks && l.header.copy == 0 && l.latch.copy == 0
  {
  }

  lemma ExitEdge(l: Loop, count: nat, b: Label, it: nat, edges: map<Label, Val>)
    requires Valid(l) && (forall e | e in edges :: e.copy == 0) && b in edges && b in l.code.blocks
    requires it < count && (b == l.latch ==> it + 1 == count)
    ensures var x := ExitEdges(l, count, edges);
      Label(b.block, it) in x && x[Label(b.block, it)] == Renamed(l, it, edges[b])
  {
    hide Valid, Renamed;
    var x := ExitEdges(l, count, edges);
    assert Label(b.block, it) in x;
    var e, i :| e in edges && 0 <= i < (if e in l.code.blocks then count else 1) && !(e == l.latch && i + 1 < count)
      && Label(b.block, it) == Label(e.block, i) && x[Label(b.block, it)] == Renamed(l, i, edges[e]);
    assert e == b;
  }

  /** Both leave with the same values. */
  lemma EnterExit(l: Loop, count: nat, it: nat, b: Label, t: Label, env: Env, env2: Env, mem: Memory, outer: Env)
    requires Valid(l) && Outer(l, outer) && Agrees(l, it, env, env2, outer) && it < count
    requires b in l.code.blocks && t in l.code.exits && (b == l.latch ==> it + 1 == count)
    requires Enter(l.code, l.header, b, t, env, mem, outer).Left?
    ensures Enter(Unrolled(l, count), l.header, Label(b.block, it), t, env2, mem, outer)
      == Enter(l.code, l.header, b, t, env, mem, outer)
  {
    UnrolledExit(l, count, t);
    hide Valid, Agrees, Outer, Renamed, Unrolled, ExitEdges, Value;
    var phis, q := l.code.exits[t], ExitPhis(l, count, l.code.exits[t]);
    forall r | r in phis
      ensures Label(b.block, it) in q[r] && Value(q[r][Label(b.block, it)], env2, outer) == Value(phis[r][b], env, outer)
    {
      ExitEdge(l, count, b, it, phis[r]);
      EdgeAgrees(l, it, phis[r][b], env, env2, outer);
    }
    SameValues(phis, b, env, q, Label(b.block, it), env2, outer);
  }

  /** The header's phis at the start of an iteration. */
  lemma HeaderPhi(l: Loop, r: Reg)
    requires Valid(l) && IsPhi(l, r)
    ensures l.header in l.code.blocks && r.copy == 0 && InLoop(l, r) && l.latch in l.code.blocks[l.header].phis[r]
    ensures l.code.blocks[l.header].phis[r][l.latch] == LatchValue(l, r)
  {
    BlockFacts(l, l.header);
  }

  lemma NextPhi(l: Loop, it: nat, r: Reg, env: Env, env2: Env, outer: Env)
    requires Valid(l) && Outer(l, outer) && Agrees(l, it, env, env2, outer) && IsPhi(l, r) && Value(LatchValue(l, r), env, outer).Some?
    ensures Value(Renamed(l, it + 1, Use(r)), env2, outer) == Value(LatchValue(l, r), env, outer)
  {
    hide Valid, InLoop;
    HeaderPhi(l, r);
    EdgeAgrees(l, it, LatchValue(l, r), env, env2, outer);
  }

  /** Back at the header the loop sets its phis; in the next copy their values have names already. */
  lemma PhisNext(l: Loop, it: nat, env: Env, env2: Env, outer: Env)
    requires Valid(l) && Outer(l, outer) && Agrees(l, it, env, env2, outer) && l.header in l.code.blocks
    requires PhisDefined(l.code.blocks[l.header].phis, l.latch, env, outer)
    ensures Agrees(l, it + 1, PhiValues(l.code.blocks[l.header].phis, l.latch, env, outer), env2, outer)
  {
    hide Valid, InLoop, Renamed, Outer, Value;
    var p := PhiValues(l.code.blocks[l.header].phis, l.latch, env, outer);
    forall r | r in p
      ensures r.copy == 0 && InLoop(l, r) && Value(Renamed(l, it + 1, Use(r)), env2, outer) == Some(p[r])
    {
      HeaderPhi(l, r);
      NextPhi(l, it, r, env, env2, outer);
    }
  }

  lemma EnterNext(l: Loop, count: nat, it: nat, env: Env, env2: Env, mem: Memory, outer: Env)
    requires Valid(l) && Outer(l, outer) && Agrees(l, it, env, env2, outer) && it + 1 < count
    requires Enter(l.code, l.header, l.latch, l.header, env, mem, outer).At?
    ensures Abreast(l, it + 1, Enter(l.code, l.header, l.latch, l.header, env, mem, outer),
      Enter(Unrolled(l, count), l.header, Label(l.latch.block, it), Label(l.header.block, it + 1), env2, mem, outer), outer)
  {
    HeaderOriginal(l);
    UnrolledBlock(l, count, l.header, it + 1);
    hide Valid, Unrolled, Agrees, Outer, Renamed, RenamedBody, CopyTerm, Enter;
    EnterHeader(l.code, l.header, l.latch, env, mem, outer);
    PhisNext(l, it, env, env2, outer);
    EnterPlain(Unrolled(l, count), l.header, Label(l.latch.block, it), Label(l.header.block, it + 1), env2, mem, outer);
  }

  /** From the last copy both set the header's phis, to the same values. */
  lemma PhisRound(l: Loop, count: nat, env: Env, env2: Env, outer: Env)
    requires Valid(l) && Outer(l, outer) && count > 0 && Agrees(l, count - 1, env, env2, outer) && l.header in l.code.blocks
    requires PhisDefined(l.code.blocks[l.header].phis, l.latch, env, outer)
    ensures var phis, q, f := l.code.blocks[l.header].phis, HeaderPhis(l, count), Label(l.latch.block, count - 1);
      PhisDefined(q, f, env2, outer) && PhiValues(q, f, env2, outer) == PhiValues(phis, l.latch, env, outer)
  {
    hide Valid, InLoop, Agrees, Outer, Renamed, Value;
    var phis, q, f := l.code.blocks[l.header].phis, HeaderPhis(l, count), Label(l.latch.block, count - 1);
    forall r | r in phis ensures f in q[r] && Value(q[r][f], env2, outer) == Value(phis[r][l.latch], env, outer) {
      HeaderPhi(l, r);
      EdgeAgrees(l, count - 1, LatchValue(l, r), env, env2, outer);
    }
    SameValues(phis, l.latch, env, q, f, env2, outer);
  }

  lemma PhisOnly(l: Loop, p: Env, outer: Env)
    requires Valid(l) && forall r | r in p :: IsPhi(l, r)
    ensures Agrees(l, 0, p, p, outer)
  {
    hide Valid, InLoop, IsPhi;
    forall r | r in p ensures r.copy == 0 && InLoop(l, r) && Reg(r.name, 0) == r { HeaderPhi(l, r); }
  }

  lemma EnterRound(l: Loop, count: nat, env: Env, env2: Env, mem: Memory, outer: Env)
    requires Valid(l) && Outer(l, outer) && count > 0 && Agrees(l, count - 1, env, env2, outer)
    requires Enter(l.code, l.header, l.latch, l.header, env, mem, outer).At?
    ensures Abreast(l, 0, Enter(l.code, l.header, l.latch, l.header, env, mem, outer),
      Enter(Unrolled(l, count), l.header, Label(l.latch.block, count - 1), l.header, env2, mem, outer), outer)
  {
    HeaderOriginal(l);
    UnrolledBlock(l, count, l.header, 0);
    hide Valid, Unrolled, Agrees, Outer, Renamed, RenamedBody, CopyTerm, HeaderPhis, Enter;
    assert Label(l.header.block, 0) == l.header;
    EnterHeader(l.code, l.header, l.latch, env, mem, outer);
    PhisRound(l, count, env, env2, outer);
    EnterHeader(Unrolled(l, count), l.header, Label(l.latch.block, count - 1), env2, mem, outer);
    PhisOnly(l, PhiValues(l.code.blocks[l.header].phis, l.latch, env, outer), outer);
  }

  // ----- whole runs -----

  /** The copy that the next block runs in. */
  function NextCopy(l: Loop, count: nat, it: nat, s: State, t: State): nat {
    if t.At? && t.place == l.header then (if it + 1 < count then it + 1 else 0) else it
  }

  /** The test at the latch fails only where it is still made. */
  predicate LeavesInLast(l: Loop, count: nat, it: nat, s: State, t: State) {
    s.At? && s.place == l.latch && t.Left? ==> it + 1 == count
  }

  lemma RenamedTermAgrees(l: Loop, it: nat, t: Term, env: Env, env2: Env, outer: Env)
    requires Valid(l) && Outer(l, outer) && Agrees(l, it, env, env2, outer) && (t.Branch? ==> Original(t.cond))
    requires Target(t, env, outer).Some?
    ensures Target(RenamedTerm(l, it, t), env2, outer) == Some(RenamedLabel(l, it, Target(t, env, outer).value))
  {
    hide Valid, Agrees, Outer, Renamed, Value, RenamedLabel;
    if t.Branch? { EdgeAgrees(l, it, t.cond, env, env2, outer); }
  }

  lemma TermAgrees(l: Loop, count: nat, it: nat, b: Label, env: Env, env2: Env, outer: Env)
    requires Valid(l) && Outer(l, outer) && Agrees(l, it, env, env2, outer) && it < count && b in l.code.blocks
    requires Target(l.code.blocks[b].term, env, outer).Some?
    ensures var t, t2 := Target(l.code.blocks[b].term, env, outer).value, Target(CopyTerm(l, count, b, it), env2, outer);
      t2 == Some(if b != l.latch then RenamedLabel(l, it, t) else if it + 1 < count then Label(l.header.block, it + 1) else t)
  {
    TermOriginal(l, b);
    hide Valid, Agrees, Outer, Renamed, Value, Targets, RenamedLabel, RenamedTerm;
    var t := l.code.blocks[b].term;
    if b != l.latch {
      RenamedTermAgrees(l, it, t, env, env2, outer);
    } else if it + 1 == count {
      LatchBranches(l);
      EdgeAgrees(l, it, t.cond, env, env2, outer);
    }
  }

  lemma LatchBranches(l: Loop)
    requires Valid(l)
    ensures l.latch in l.code.blocks && l.code.blocks[l.latch].term.Branch?
  {
  }

  lemma TermOriginal(l: Loop, b: Label)
    requires Valid(l) && b in l.code.blocks
    ensures var t := l.code.blocks[b].term;
      && b.copy == 0 && (t.Branch? ==> Original(t.cond))
      && (b != l.latch ==> l.header !in Targets(t))
      && forall x | x in Targets(t) :: x in l.code.blocks <==> x !in l.code.exits
  {
    BlockFacts(l, b);
    AllOriginal(l);
  }

  lemma BodyOriginal(l: Loop, b: Label)
    requires Valid(l) && b in l.code.blocks
    ensures var o := l.code.blocks[b]; forall i :: 0 <= i < |o.body| ==> OriginalInstr(l, o.body[i])
  {
    BlockFacts(l, b);
  }

  lemma LatchTargets(l: Loop)
    requires Valid(l)
    ensures l.latch in l.code.blocks && forall t | t in Targets(l.code.blocks[l.latch].term) :: t == l.header || t in l.code.exits
  {
  }

  /** One block of the loop and the copy of it make the same step. */
  lemma StepAgrees(l: Loop, count: nat, it: nat, s: State, u: State, outer: Env, sem: Semantics)
    requires Valid(l) && Outer(l, outer) && it < count && Abreast(l, it, s, u, outer)
    requires LeavesInLast(l, count, it, s, Step(l.code, l.header, s, outer, sem))
    ensures var t, v := Step(l.code, l.header, s, outer, sem), Step(Unrolled(l, count), l.header, u, outer, sem);
      && (t.At? ==> v.At? && Abreast(l, NextCopy(l, count, it, s, t), t, v, outer))
      && (t.Left? ==> v == t)
  {
    var b := s.place;
    BodyOriginal(l, b);
    TermOriginal(l, b);
    LatchTargets(l);
    UnrolledBlock(l, count, b, it);
    hide Valid, Agrees, Outer, Renamed, RenamedBody, RenamedPhis, HeaderPhis, OriginalInstr, CopyTerm, Unrolled, Enter, RunBody, Target, Step;
    var o := l.code.blocks[b];
    var r := RunBody(o.body, Ran(s.env, s.mem), outer, sem);
    StepIs(l.code, l.header, s, outer, sem);
    if r.Some? && Target(o.term, r.value.env, outer).Some? {
      var e := BodyAgrees(l, it, o.body, Ran(s.env, s.mem), u.env, outer, sem);
      var t := Target(o.term, r.value.env, outer).value;
      TargetIn(o.term, r.value.env, outer);
      TermAgrees(l, count, it, b, r.value.env, e, outer);
      EnterWhere(l.code, l.header, b, t, r.value.env, r.value.mem, outer);
      EnterAgrees(l, count, it, b, t, r.value.env, e, r.value.mem, outer);
      StepIs(Unrolled(l, count), l.header, u, outer, sem);
    }
  }

  lemma EnterAgrees(l: Loop, count: nat, it: nat, b: Label, t: Label, env: Env, env2: Env, mem: Memory, outer: Env)
    requires Valid(l) && Outer(l, outer) && Agrees(l, it, env, env2, outer) && it < count
    requires b in l.code.blocks && (t in l.code.blocks <==> t !in l.code.exits)
    requires if b == l.latch then t == l.header || t in l.code.exits else t != l.header
    requires b == l.latch && Enter(l.code, l.header, b, t, env, mem, outer).Left? ==> it + 1 == count
    ensures var s := Enter(l.code, l.header, b, t, env, mem, outer);
      var to := if b == l.latch then (if it + 1 < count then Label(l.header.block, it + 1) else t) else RenamedLabel(l, it, t);
      var u := Enter(Unrolled(l, count), l.header, Label(b.block, it), to, env2, mem, outer);
      && (s.At? ==> Abreast(l, if t == l.header then (if it + 1 < count then it + 1 else 0) else it, s, u, outer))
      && (s.Left? ==> u == s)
  {
    hide Valid, Agrees, Outer, Unrolled, Enter, Abreast;
    var s := Enter(l.code, l.header, b, t, env, mem, outer);
    EnterWhere(l.code, l.header, b, t, env, mem, outer);
    if s.Left? {
      EnterExit(l, count, it, b, t, env, env2, mem, outer);
    } else if s.At? {
      if b != l.latch {
        EnterInner(l, count, it, b, t, env, env2, mem, outer);
      } else if it + 1 < count {
        EnterNext(l, count, it, env, env2, mem, outer);
      } else {
        EnterRound(l, count, env, env2, mem, outer);
      }
    }
  }

  /** Whenever the test at the latch fails, the number of finished iterations is a multiple of `count`; `k` are finished. */
  predicate Multiple(l: Loop, count: nat, k: nat, s: State, outer: Env, sem: Semantics, n: nat)
    requires count > 0
    decreases n
  {
    n == 0 ||
    var t := Step(l.code, l.header, s, outer, sem);
    && LeavesInLast(l, count, k % count, s, t)
    && Multiple(l, count, if t.At? && t.place == l.header then k + 1 else k, t, outer, sem, n - 1)
  }

  lemma NextModulo(k: nat, count: nat)
    requires count > 0
    ensures k % count < count && (k + 1) % count == if k % count + 1 < count then k % count + 1 else 0
  {
    var q, r := k / count, k % count;
    if r + 1 < count {
      DivMod(q, r + 1, count);
      assert k + 1 == q * count + (r + 1);
    } else {
      DivMod(q + 1, 0, count);
      assert k + 1 == (q + 1) * count;
    }
  }

  lemma {:induction false} Settled(p: Program, header: Label, s: State, outer: Env, sem: Semantics, n: nat)
    requires !s.At?
    ensures Run(p, header, s, outer, sem, n) == s
    decreases n
  {
    if n > 0 { Settled(p, header, s, outer, sem, n - 1); }
  }

  /** Unrolled and original loops run abreast, and leave with the same values. */
  lemma {:induction false} RunsAgree(l: Loop, count: nat, k: nat, s: State, u: State, outer: Env, sem: Semantics, n: nat)
    requires Valid(l) && Outer(l, outer) && count > 0 && Abreast(l, k % count, s, u, outer)
    requires Multiple(l, count, k, s, outer, sem, n)
    ensures var t, v := Run(l.code, l.header, s, outer, sem, n), Run(Unrolled(l, count), l.header, u, outer, sem, n);
      && (t.At? ==> v.At? && v.place.block == t.place.block && v.mem == t.mem)
      && (t.Left? ==> v == t)
    decreases n
  {
    hide Valid, Outer, Step, Unrolled, Agrees;
    if n > 0 {
      var t, v := Step(l.code, l.header, s, outer, sem), Step(Unrolled(l, count), l.header, u, outer, sem);
      NextModulo(k, count);
      StepAgrees(l, count, k % count, s, u, outer, sem);
      if t.At? {
        RunsAgree(l, count, if t.place == l.header then k + 1 else k, t, v, outer, sem, n - 1);
      } else {
        Settled(l.code, l.header, t, outer, sem, n - 1);
        if t.Left? { Settled(Unrolled(l, count), l.header, v, outer, sem, n - 1); }
      }
    }
  }

  /** Both loops are entered alike. */
  lemma EnterLoop(l: Loop, count: nat, pre: Label, mem: Memory, outer: Env)
    requires Valid(l) && count > 0 && pre.copy == 0 && pre !in l.code.blocks
    ensures var s := Enter(l.code, l.header, pre, l.header, map[], mem, outer);
      && Enter(Unrolled(l, count), l.header, pre, l.header, map[], mem, outer) == s
      && (s.At? ==> Abreast(l, 0, s, s, outer))
  {
    HeaderOriginal(l);
    UnrolledBlock(l, count, l.header, 0);
    hide Valid, Unrolled, Agrees, Renamed, RenamedBody, CopyTerm, Enter, Value, HeaderPhis;
    assert Label(l.header.block, 0) == l.header;
    var phis, q := l.code.blocks[l.header].phis, HeaderPhis(l, count);
    OtherEdges(l, count, pre);
    EnterHeader(l.code, l.header, pre, map[], mem, outer);
    EnterHeader(Unrolled(l, count), l.header, pre, map[], mem, outer);
    if PhisDefined(phis, pre, map[], outer) {
      SameValues(phis, pre, map[], q, pre, map[], outer);
      PhisOnly(l, PhiValues(phis, pre, map[], outer), outer);
    }
  }

  lemma OtherEdges(l: Loop, count: nat, pre: Label)
    requires Valid(l) && count > 0 && pre.copy == 0 && pre !in l.code.blocks
    ensures l.header in l.code.blocks
    ensures var phis, q := l.code.blocks[l.header].phis, HeaderPhis(l, count);
      && q.Keys == phis.Keys
      && forall r | r in phis :: (pre in phis[r] <==> pre in q[r]) && (pre in phis[r] ==> q[r][pre] == phis[r][pre])
  {
    HeaderOriginal(l);
    hide Valid, Renamed;
    assert Label(l.latch.block, count - 1) != pre && l.latch != pre;
  }

  /** A loop whose latch only ever leaves after a multiple of `count` iterations computes the same when it is unrolled. */
  lemma UnrollingKeepsMeaning(l: Loop, count: nat, pre: Label, mem: Memory, outer: Env, sem: Semantics, n: nat)
    requires Valid(l) && Outer(l, outer) && count > 0 && pre.copy == 0 && pre !in l.code.blocks
    requires Multiple(l, count, 0, Enter(l.code, l.header, pre, l.header, map[], mem, outer), outer, sem, n)
    ensures var s := Enter(l.code, l.header, pre, l.header, map[], mem, outer);
      var u := Enter(Unrolled(l, count), l.header, pre, l.header, map[], mem, outer);
      var t, v := Run(l.code, l.header, s, outer, sem, n), Run(Unrolled(l, count), l.header, u, outer, sem, n);
      && (t.At? ==> v.At? && v.place.block == t.place.block && v.mem == t.mem)
      && (t.Left? ==> v == t)
  {
    EnterLoop(l, count, pre, mem, outer);
    hide Valid, Outer, Step, Unrolled, Agrees;
    var s := Enter(l.code, l.header, pre, l.header, map[], mem, outer);
    if s.At? {
      assert 0 % count == 0;
      RunsAgree(l, count, 0, s, s, outer, sem, n);
    } else {
      Settled(l.code, l.header, s, outer, sem, n);
      Settled(Unrolled(l, count), l.header, s, outer, sem, n);
    }
  }

  /** The condition is needed: where the latch leaves in an earlier copy, the unrolled loop does not. */
  lemma NoExitBefore(l: Loop, count: nat, it: nat, s: State, u: State, outer: Env, sem: Semantics)
    requires Valid(l) && Outer(l, outer) && it + 1 < count && Abreast(l, it, s, u, outer) && s.place == l.latch
    requires Step(l.code, l.header, s, outer, sem).Left?
    ensures !Step(Unrolled(l, count), l.header, u, outer, sem).Left?
  {
    HeaderOriginal(l);
    UnrolledBlock(l, count, l.latch, it);
    UnrolledBlock(l, count, l.header, it + 1);
    hide Valid, Unrolled, Agrees, Renamed, RenamedBody, RunBody, Enter, Value;
    StepIs(Unrolled(l, count), l.header, u, outer, sem);
    var r := RunBody(RenamedBody(l, it, l.code.blocks[l.latch].body), Ran(u.env, u.mem), outer, sem);
    if r.Some? {
      EnterWhere(Unrolled(l, count), l.header, u.place, Label(l.header.block, it + 1), r.value.env, r.value.mem, outer);
    }
  }
}
