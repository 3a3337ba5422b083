/** Loops in SSA form and what they compute. */
module LoopProgram {
  datatype Option<T> = None | Some(value: T)

  /** The original registers and blocks are copy 0. */
  datatype Reg = Reg(name: nat, copy: nat)
  datatype Label = Label(block: nat, copy: nat)
  datatype Val = Const(value: int) | Use(reg: Reg)

  datatype Instr = Instr(dst: Reg, op: nat, args: seq<Val>)
  datatype Term = Goto(dest: Label) | Branch(cond: Val, yes: Label, no: Label)

  /** For each phi, the value that comes in along each edge. */
  type Phis = map<Reg, map<Label, Val>>
  datatype Block = Block(phis: Phis, body: seq<Instr>, term: Term)

  /** The blocks of a loop and the phis of the blocks it leaves to. */
  datatype Program = Program(blocks: map<Label, Block>, exits: map<Label, Phis>)

  type Env = map<Reg, int>
  type Memory = map<int, int>

  /** What an operation makes of its arguments and of the memory. */
  type Semantics = (nat, seq<int>, Memory) -> (int, Memory)

  // ----- meaning -----

  /** Registers set in the current iteration, then those from outside the loop. */
  function Value(v: Val, env: Env, outer: Env): Option<int> {
    match v
    case Const(c) => Some(c)
    case Use(r) => if r in env then Some(env[r]) else if r in outer then Some(outer[r]) else None
  }

  function Values(vs: seq<Val>, env: Env, outer: Env): (r: Option<seq<int>>)
    ensures r.Some? ==> |r.value| == |vs|
  {
    if vs == [] then Some([]) else
    var n := |vs| - 1;
    var head, last := Values(vs[..n], env, outer), Value(vs[n], env, outer);
    if head.Some? && last.Some? then Some(head.value + [last.value]) else None
  }

  datatype Ran = Ran(env: Env, mem: Memory)

  function RunInstr(i: Instr, s: Ran, outer: Env, sem: Semantics): Option<Ran> {
    var args := Values(i.args, s.env, outer);
    if args.None? then None else
    var (x, mem) := sem(i.op, args.value, s.mem);
    Some(Ran(s.env[i.dst := x], mem))
  }

  function RunBody(body: seq<Instr>, s: Ran, outer: Env, sem: Semantics): Option<Ran> {
    if body == [] then Some(s) else
    var r := RunBody(body[..|body| - 1], s, outer, sem);
    if r.None? then None else RunInstr(body[|body| - 1], r.value, outer, sem)
  }

  function Target(t: Term, env: Env, outer: Env): Option<Label> {
    match t
    case Goto(dest) => Some(dest)
    case Branch(cond, yes, no) =>
      var c := Value(cond, env, outer);
      if c.None? then None else Some(if c.value != 0 then yes else no)
  }

  function Targets(t: Term): set<Label> { if t.Goto? then {t.dest} else {t.yes, t.no} }

  lemma TargetIn(t: Term, env: Env, outer: Env)
    requires Target(t, env, outer).Some?
    ensures Target(t, env, outer).value in Targets(t)
  {
  }

  /** All phis have a value along the edge from `from`. */
  predicate PhisDefined(phis: Phis, from: Label, env: Env, outer: Env) {
    forall r | r in phis :: from in phis[r] && Value(phis[r][from], env, outer).Some?
  }

  function PhiValues(phis: Phis, from: Label, env: Env, outer: Env): Env
    requires PhisDefined(phis, from, env, outer)
  {
    map r | r in phis :: Value(phis[r][from], env, outer).value
  }

  /** Phis of the same registers that get the same values. */
  lemma SameValues(phis: Phis, from: Label, env: Env, phis2: Phis, from2: Label, env2: Env, outer: Env)
    requires PhisDefined(phis, from, env, outer) && phis2.Keys == phis.Keys
    requires forall r | r in phis :: from2 in phis2[r] && Value(phis2[r][from2], env2, outer) == Value(phis[r][from], env, outer)
    ensures PhisDefined(phis2, from2, env2, outer) && PhiValues(phis2, from2, env2, outer) == PhiValues(phis, from, env, outer)
  {
  }

  /** In a block behind its phis, or out of the loop with the values of the phis there. */
  datatype State = At(place: Label, env: Env, mem: Memory) | Left(exit: Label, values: Env, mem: Memory) | Stuck

  /** Follows an edge. An iteration starts with its phis only: in SSA form nothing else is read before it is set. */
  function Enter(p: Program, header: Label, from: Label, to: Label, env: Env, mem: Memory, outer: Env): State {
    if to in p.blocks then
      var phis := p.blocks[to].phis;
      if !PhisDefined(phis, from, env, outer) then Stuck else
      At(to, (if to == header then map[] else env) + PhiValues(phis, from, env, outer), mem)
    else if to in p.exits && PhisDefined(p.exits[to], from, env, outer) then
      Left(to, PhiValues(p.exits[to], from, env, outer), mem)
    else Stuck
  }

  lemma EnterWhere(p: Program, header: Label, from: Label, to: Label, env: Env, mem: Memory, outer: Env)
    ensures var s := Enter(p, header, from, to, env, mem, outer);
      (s.At? ==> to in p.blocks && s.place == to) && (s.Left? ==> to !in p.blocks && to in p.exits)
  {
  }

  lemma EnterHeader(p: Program, header: Label, from: Label, env: Env, mem: Memory, outer: Env)
    requires header in p.blocks
    ensures var phis := p.blocks[header].phis;
      Enter(p, header, from, header, env, mem, outer)
        == if PhisDefined(phis, from, env, outer) then At(header, PhiValues(phis, from, env, outer), mem) else Stuck
  {
    var phis := p.blocks[header].phis;
    if PhisDefined(phis, from, env, outer) {
      assert map[] + PhiValues(phis, from, env, outer) == PhiValues(phis, from, env, outer);
    }
  }

  lemma EnterPlain(p: Program, header: Label, from: Label, to: Label, env: Env, mem: Memory, outer: Env)
    requires to in p.blocks && p.blocks[to].phis == map[] && to != header
    ensures Enter(p, header, from, to, env, mem, outer) == At(to, env, mem)
  {
    assert env + PhiValues(map[], from, env, outer) == env;
  }

  /** Runs the block that the state is in and goes on to the next one. */
  function Step(p: Program, header: Label, s: State, outer: Env, sem: Semantics): State {
    if !s.At? then s else
    if s.place !in p.blocks then Stuck else
    var b := p.blocks[s.place];
    var r := RunBody(b.body, Ran(s.env, s.mem), outer, sem);
    if r.None? then Stuck else
    var t := Target(b.term, r.value.env, outer);
    if t.None? then Stuck else Enter(p, header, s.place, t.value, r.value.env, r.value.mem, outer)
  }

  /** What a step is made of. */
  lemma StepIs(p: Program, header: Label, s: State, outer: Env, sem: Semantics)
    requires s.At? && s.place in p.blocks
    ensures var b := p.blocks[s.place];
      var r := RunBody(b.body, Ran(s.env, s.mem), outer, sem);
      Step(p, header, s, outer, sem) == if r.None? || Target(b.term, r.value.env, outer).None? then Stuck else
        Enter(p, header, s.place, Target(b.term, r.value.env, outer).value, r.value.env, r.value.mem, outer)
  {
  }

  function Run(p: Program, header: Label, s: State, outer: Env, sem: Semantics, n: nat): State
    decreases n
  {
    if n == 0 then s else Run(p, header, Step(p, header, s, outer, sem), outer, sem, n - 1)
  }
}
