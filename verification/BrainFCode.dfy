/** What it means for blocks of a module to implement a folded program. */
module BrainFCode {
  import opened BrainFSource
  import opened BrainFSymbols
  import opened BrainFMachine

  // The registers and blocks the function header makes first.
  const ARR: nat := 0
  const ARRMAX: nat := 1
  const ENDBB: nat := 1
  const ABERROR: nat := 2

  /** A place in a block, and the register that holds the head there. */
  datatype Pos = Pos(blk: nat, idx: nat, head: nat)

  /** A folded program together with the registers and blocks that its code uses. */
  datatype Inst =
    | IRead(t0: nat, t1: nat)
    | IWrite(t0: nat, t1: nat)
    | IMove(k: int, h: nat, c0: nat, c1: nat, c2: nat, next: nat)
    | IChange(k: int, t0: nat, t1: nat)
    | ILoop(body: Code, test: nat, phi: nat, t0: nat, c: nat, h: nat)

  datatype Code = Begin(at: Pos) | More(init: Code, inst: Inst, at: Pos)

  function Entry(code: Code): Pos {
    match code
    case Begin(at) => at
    case More(init, _, _) => Entry(init)
  }

  function SymOf(inst: Inst): Sym {
    match inst
    case IRead(_, _) => ReadSym
    case IWrite(_, _) => WriteSym
    case IMove(k, _, _, _, _, _) => MoveSym(k)
    case IChange(k, _, _) => ChangeSym(k)
    case ILoop(body, _, _, _, _, _) => LoopSym(SymsOf(body))
  }

  function SymsOf(code: Code): Syms {
    match code
    case Begin(_) => NoSyms
    case More(init, inst, _) => Add(SymsOf(init), SymOf(inst))
  }

  predicate CodeAt(m: Module, p: Pos, code: seq<Instr>) {
    p.blk < |m| && p.idx + |code| <= |m[p.blk].instrs| && m[p.blk].instrs[p.idx..p.idx + |code|] == code
  }

  /** Control leaves block `b` at instruction `idx` by `t`. */
  predicate EndsAt(m: Module, b: nat, idx: nat, t: Terminator) {
    b < |m| && |m[b].instrs| == idx && m[b].term == Some(t)
  }

  predicate NoPhi(m: Module, b: nat) { b < |m| && m[b].phi == None }

  /** Coming from block `from`, block `b` gives register `dst` the value of register `src`. */
  predicate PhiFrom(m: Module, b: nat, dst: nat, from: nat, src: nat) {
    b < |m| && m[b].phi.Some? && m[b].phi.value.dst == dst && Lookup(m[b].phi.value.incoming, from) == Some(src)
  }

  /** A register that may be overwritten while `p.head` is still needed. */
  predicate Temp(t: nat, p: Pos) { t > ARRMAX && t != p.head }

  ghost predicate ImplementsInst(m: Module, check: bool, inst: Inst, p: Pos, q: Pos)
    decreases inst
  {
    match inst
    case IRead(t0, t1) =>
      CodeAt(m, p, [GetChar(t0), Trunc8(t1, t0), Store(t1, p.head)])
      && q == Pos(p.blk, p.idx + 3, p.head) && Temp(t0, p) && Temp(t1, p)
    case IWrite(t0, t1) =>
      CodeAt(m, p, [Load(t0, p.head), SExt(t1, t0), PutChar(t1)])
      && q == Pos(p.blk, p.idx + 3, p.head) && Temp(t0, p) && Temp(t1, p)
    case IChange(k, t0, t1) =>
      CodeAt(m, p, [Load(t0, p.head), Add8(t1, t0, Wrap(k)), Store(t1, p.head)])
      && q == Pos(p.blk, p.idx + 3, p.head) && Temp(t0, p) && Temp(t1, p)
    case IMove(k, h, c0, c1, c2, next) =>
      CodeAt(m, p, [Gep(h, p.head, k)]) && h > ARRMAX
      && if !check then q == Pos(p.blk, p.idx + 1, h) else
           CodeAt(m, p, [Gep(h, p.head, k), ICmpUGE(c0, h, ARRMAX), ICmpULT(c1, h, ARR), Or(c2, c0, c1)])
           && EndsAt(m, p.blk, p.idx + 4, CondBr(c2, ABERROR, next)) && NoPhi(m, next)
           && q == Pos(next, 0, h) && Temp(c0, q) && Temp(c1, q) && Temp(c2, q) && c0 != c1
    case ILoop(body, _, _, _, _, _) => LoopShape(m, inst, p, q) && Implements(m, check, body)
  }

  /** The blocks around a loop's body. */
  predicate LoopShape(m: Module, inst: Inst, p: Pos, q: Pos)
    requires inst.ILoop?
  {
    var ILoop(body, test, phi, t0, c, h) := inst;
    var b, e := Entry(body), body.at;
    && EndsAt(m, p.blk, p.idx, Br(test)) && PhiFrom(m, test, phi, p.blk, p.head)
    && CodeAt(m, Pos(test, 0, phi), [Load(t0, phi), ICmpEQ0(c, t0)])
    && EndsAt(m, test, 2, CondBr(c, q.blk, b.blk))
    && NoPhi(m, b.blk) && b.idx == 0 && b.head == phi
    && EndsAt(m, e.blk, e.idx, Br(test)) && PhiFrom(m, test, phi, e.blk, e.head)
    && PhiFrom(m, q.blk, h, test, phi) && q == Pos(q.blk, 0, h)
    && phi > ARRMAX && h > ARRMAX && Temp(t0, Pos(test, 0, phi)) && Temp(c, Pos(test, 0, phi))
  }

  /** Running the module from the code's entry does what the folded program does, up to `code.at`. */
  ghost predicate Implements(m: Module, check: bool, code: Code)
    decreases code
  {
    match code
    case Begin(_) => true
    case More(init, inst, at) => Implements(m, check, init) && ImplementsInst(m, check, inst, init.at, at)
  }

  /** Code stays code while the module grows. */
  lemma {:induction false} ImplementsGrows(m: Module, m': Module, check: bool, code: Code)
    requires Implements(m, check, code) && Extends(m, m')
    ensures Implements(m', check, code)
    decreases code
  {
    match code
    case Begin(_) =>
    case More(init, inst, at) =>
      ImplementsGrows(m, m', check, init);
      InstGrows(m, m', check, inst, init.at, at);
  }

  lemma CodeAtGrows(m: Module, m': Module, p: Pos, code: seq<Instr>)
    requires CodeAt(m, p, code) && Extends(m, m')
    ensures CodeAt(m', p, code)
  {
    assert BlockExtends(m[p.blk], m'[p.blk]);
    assert m'[p.blk].instrs[p.idx..p.idx + |code|] == code;
  }

  lemma PhiFromGrows(m: Module, m': Module, b: nat, dst: nat, from: nat, src: nat)
    requires PhiFrom(m, b, dst, from, src) && Extends(m, m')
    ensures PhiFrom(m', b, dst, from, src)
  {
    assert BlockExtends(m[b], m'[b]);
    LookupPrefix(m[b].phi.value.incoming, m'[b].phi.value.incoming, from);
  }

  lemma {:induction false} InstGrows(m: Module, m': Module, check: bool, inst: Inst, p: Pos, q: Pos)
    requires ImplementsInst(m, check, inst, p, q) && Extends(m, m')
    ensures ImplementsInst(m', check, inst, p, q)
    decreases inst
  {
    assert forall b :: 0 <= b < |m| ==> BlockExtends(m[b], m'[b]);
    match inst
    case IRead(t0, t1) =>
      CodeAtGrows(m, m', p, [GetChar(t0), Trunc8(t1, t0), Store(t1, p.head)]);
    case IWrite(t0, t1) =>
      CodeAtGrows(m, m', p, [Load(t0, p.head), SExt(t1, t0), PutChar(t1)]);
    case IChange(k, t0, t1) =>
      CodeAtGrows(m, m', p, [Load(t0, p.head), Add8(t1, t0, Wrap(k)), Store(t1, p.head)]);
    case IMove(k, h, c0, c1, c2, next) =>
      CodeAtGrows(m, m', p, [Gep(h, p.head, k)]);
    case ILoop(body, test, phi, t0, c, h) =>
      ImplementsGrows(m, m', check, body);
      PhiFromGrows(m, m', test, phi, p.blk, p.head);
      PhiFromGrows(m, m', test, phi, body.at.blk, body.at.head);
      PhiFromGrows(m, m', q.blk, h, test, phi);
  }
}
