/** The fragment of LLVM IR that the compiler emits, and a machine that runs it one instruction at a time. */
module BrainFMachine {
  import opened BrainFSource

  datatype Option<T> = None | Some(value: T)

  /** Registers and blocks are named by numbers. */
  datatype Instr =
    | Malloc(dst: nat, size: nat)
    | Memset(ptr: nat, size: nat)
    | Gep(dst: nat, ptr: nat, offset: int)
    | GetChar(dst: nat)
    | Trunc8(dst: nat, src: nat)
    | SExt(dst: nat, src: nat)
    | PutChar(src: nat)
    | Load(dst: nat, ptr: nat)
    | Add8(dst: nat, src: nat, k: byte)
    | Store(src: nat, ptr: nat)
    | ICmpUGE(dst: nat, a: nat, b: nat)
    | ICmpULT(dst: nat, a: nat, b: nat)
    | Or(dst: nat, a: nat, b: nat)
    | ICmpEQ0(dst: nat, src: nat)
    | Puts
    | Free(ptr: nat)

  datatype Terminator = Br(dest: nat) | CondBr(cond: nat, ifTrue: nat, ifFalse: nat) | Ret

  /** For each block control may come from, the register that holds the value. */
  datatype Phi = Phi(dst: nat, incoming: seq<(nat, nat)>)

  datatype Block = Block(phi: Option<Phi>, instrs: seq<Instr>, term: Option<Terminator>)

  type Module = seq<Block>

  /** `base` is the address malloc gives out; `tape` the allocation's bytes. */
  datatype Machine = Machine(blk: nat, idx: nat, env: map<nat, int>, base: int,
                             tape: seq<byte>, input: seq<byte>, output: seq<Event>)

  datatype StepResult = Next(s: Machine) | Stop(s: Machine) | Undefined

  function Uses(i: Instr): set<nat> {
    match i
    case Malloc(_, _) | GetChar(_) | Puts => {}
    case Memset(p, _) => {p}
    case Gep(_, p, _) => {p}
    case Trunc8(_, r) => {r}
    case SExt(_, r) => {r}
    case PutChar(r) => {r}
    case Load(_, p) => {p}
    case Add8(_, r, _) => {r}
    case Store(r, p) => {r, p}
    case ICmpUGE(_, a, b) => {a, b}
    case ICmpULT(_, a, b) => {a, b}
    case Or(_, a, b) => {a, b}
    case ICmpEQ0(_, r) => {r}
    case Free(p) => {p}
  }

  predicate IsByte(v: int) { 0 <= v < 256 }

  function Signed(v: int): int { if v < 128 then v else v - 256 }

  function Bit(b: bool): int { if b then 1 else 0 }

  /** One instruction: reading an undefined register or outside the allocation is undefined. */
  function Exec(i: Instr, s: Machine): StepResult {
    if !(Uses(i) <= s.env.Keys) then Undefined else
    var s1 := s.(idx := s.idx + 1);
    match i
    case Malloc(d, n) => if |s.tape| == n then Next(s1.(env := s.env[d := s.base])) else Undefined
    case Memset(p, n) =>
      if s.env[p] == s.base && |s.tape| == n then Next(s1.(tape := seq(n, _ => 0))) else Undefined
    case Gep(d, p, k) => Next(s1.(env := s.env[d := s.env[p] + k]))
    case GetChar(d) =>
      if s.input == [] then Next(s1.(env := s.env[d := -1]))
      else Next(s1.(env := s.env[d := s.input[0]], input := s.input[1..]))
    case Trunc8(d, r) => Next(s1.(env := s.env[d := Wrap(s.env[r])]))
    case SExt(d, r) => Next(s1.(env := s.env[d := Signed(s.env[r])]))
    case PutChar(r) => Next(s1.(output := s.output + [Put(Wrap(s.env[r]))]))
    case Load(d, p) =>
      var a := s.env[p] - s.base;
      if 0 <= a < |s.tape| then Next(s1.(env := s.env[d := s.tape[a]])) else Undefined
    case Add8(d, r, k) => Next(s1.(env := s.env[d := Wrap(s.env[r] + k)]))
    case Store(r, p) =>
      var a := s.env[p] - s.base;
      if 0 <= a < |s.tape| && IsByte(s.env[r]) then Next(s1.(tape := s.tape[a := s.env[r]])) else Undefined
    case ICmpUGE(d, a, b) => Next(s1.(env := s.env[d := Bit(s.env[a] >= s.env[b])]))
    case ICmpULT(d, a, b) => Next(s1.(env := s.env[d := Bit(s.env[a] < s.env[b])]))
    case Or(d, a, b) => Next(s1.(env := s.env[d := Bit(s.env[a] != 0 || s.env[b] != 0)]))
    case ICmpEQ0(d, r) => Next(s1.(env := s.env[d := Bit(s.env[r] == 0)]))
    case Puts => Next(s1.(output := s.output + [Report]))
    case Free(_) => Next(s1)
  }

  function Lookup(incoming: seq<(nat, nat)>, from: nat): Option<nat> {
    if incoming == [] then None
    else if incoming[0].0 == from then Some(incoming[0].1)
    else Lookup(incoming[1..], from)
  }

  /** Goes to block `t`, letting its phi pick the value for the block control comes from. */
  function Jump(m: Module, s: Machine, t: nat): StepResult {
    if t >= |m| then Undefined else
    match m[t].phi
    case None => Next(s.(blk := t, idx := 0))
    case Some(phi) =>
      match Lookup(phi.incoming, s.blk)
      case None => Undefined
      case Some(r) =>
        if r in s.env then Next(s.(blk := t, idx := 0, env := s.env[phi.dst := s.env[r]])) else Undefined
  }

  function Step(m: Module, s: Machine): StepResult {
    if s.blk >= |m| then Undefined
    else if s.idx < |m[s.blk].instrs| then Exec(m[s.blk].instrs[s.idx], s)
    else
      match m[s.blk].term
      case None => Undefined
      case Some(Br(t)) => Jump(m, s, t)
      case Some(CondBr(c, t, f)) =>
        if c in s.env then Jump(m, s, if s.env[c] != 0 then t else f) else Undefined
      case Some(Ret) => Stop(s)
  }

  /** The machine after at most `n` steps. */
  function Run(m: Module, s: Machine, n: nat): StepResult
    decreases n
  {
    if n == 0 then Next(s) else
    var r := Step(m, s);
    if r.Next? then Run(m, r.s, n - 1) else r
  }

  lemma {:induction false} RunAdd(m: Module, s: Machine, j: nat, k: nat)
    requires Run(m, s, j).Next?
    ensures Run(m, s, j + k) == Run(m, Run(m, s, j).s, k)
    decreases j
  {
    hide Step;
    if j > 0 { RunAdd(m, Step(m, s).s, j - 1, k); }
  }

  /** Once stopped or undefined, always so. */
  lemma {:induction false} RunStays(m: Module, s: Machine, j: nat, k: nat)
    requires j <= k && !Run(m, s, j).Next?
    ensures Run(m, s, k) == Run(m, s, j)
    decreases j
  {
    hide Step;
    if Step(m, s).Next? { RunStays(m, Step(m, s).s, j - 1, k - 1); }
  }

  // ----- growing a module -----

  predicate PhiExtends(x: Option<Phi>, y: Option<Phi>) {
    match (x, y)
    case (None, None) => true
    case (Some(p), Some(q)) => p.dst == q.dst && p.incoming <= q.incoming
    case _ => false
  }

  /** A finished block stays as it is; an open one grows at its end. */
  predicate BlockExtends(x: Block, y: Block) {
    if x.term.Some? then y == x else x.instrs <= y.instrs && PhiExtends(x.phi, y.phi)
  }

  predicate Extends(m: Module, m': Module) {
    |m| <= |m'| && forall b :: 0 <= b < |m| ==> BlockExtends(m[b], m'[b])
  }

  lemma ExtendsTransitive(m: Module, m': Module, m'': Module)
    requires Extends(m, m') && Extends(m', m'')
    ensures Extends(m, m'')
  {
    forall b | 0 <= b < |m| ensures BlockExtends(m[b], m''[b]) {
      assert BlockExtends(m[b], m'[b]) && BlockExtends(m'[b], m''[b]);
    }
  }

  lemma {:induction false} LookupPrefix(x: seq<(nat, nat)>, y: seq<(nat, nat)>, from: nat)
    requires x <= y && Lookup(x, from).Some?
    ensures Lookup(y, from) == Lookup(x, from)
  {
    if x[0].0 != from { LookupPrefix(x[1..], y[1..], from); }
  }
}
