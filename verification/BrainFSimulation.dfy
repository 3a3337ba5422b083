/** Code that implements a folded program does, step by step, what the program does. */
module BrainFSimulation {
  import opened BrainFSource
  import opened BrainFSymbols
  import opened BrainFMachine
  import opened BrainFCode

  /** The machine stands at `p` in the state `s` of the program. */
  ghost predicate Agrees(check: bool, s: State, ms: Machine, p: Pos) {
    && ms.blk == p.blk && ms.idx == p.idx
    && p.head > ARRMAX && p.head in ms.env && ms.env[p.head] == ms.base + s.head
    && ARR in ms.env && ms.env[ARR] == ms.base
    && (check ==> ARRMAX in ms.env && ms.env[ARRMAX] == ms.base + |s.tape|)
    && ms.tape == s.tape && ms.input == s.input && ms.output == s.output
  }

  /** The outcome `r` of a run that should lead to `q` is the one the program has. */
  ghost predicate Matches(check: bool, o: Outcome, r: StepResult, q: Pos) {
    match o
    case Done(s) => r.Next? && Agrees(check, s, r.s, q)
    case Left(s) => r.Stop? && r.s.tape == s.tape && r.s.input == s.input && r.s.output == s.output + [Report]
    case Fault => r.Undefined?
    case Timeout => r.Next?
  }

  /** The blocks that the function header makes for the end of the program. */
  predicate HasEnding(m: Module, check: bool) {
    && ENDBB < |m| && m[ENDBB] == Block(None, [Free(ARR)], Some(Ret))
    && (check ==> ABERROR < |m| && m[ABERROR] == Block(None, [Puts], Some(Br(ENDBB))))
  }

  lemma CodeStep(m: Module, p: Pos, code: seq<Instr>, j: nat, s: Machine)
    requires CodeAt(m, p, code) && j < |code| && s.blk == p.blk && s.idx == p.idx + j
    ensures Step(m, s) == Exec(code[j], s)
  {
    assert m[p.blk].instrs[p.idx..p.idx + |code|][j] == m[p.blk].instrs[p.idx + j];
  }

  /** The instructions of `code` from the `j`th on, in a row. */
  function ExecFrom(code: seq<Instr>, j: nat, s: Machine): StepResult
    requires j <= |code|
    decreases |code| - j
  {
    if j == |code| then Next(s) else
    var r := Exec(code[j], s);
    if r.Next? then ExecFrom(code, j + 1, r.s) else r
  }

  lemma ExecAdvances(i: Instr, s: Machine)
    ensures var r := Exec(i, s); !r.Stop? && (r.Next? ==> r.s.blk == s.blk && r.s.idx == s.idx + 1)
  {
  }

  lemma {:induction false} RunCode(m: Module, p: Pos, code: seq<Instr>, j: nat, s: Machine)
    requires CodeAt(m, p, code) && j <= |code| && s.blk == p.blk && s.idx == p.idx + j
    ensures Run(m, s, |code| - j) == ExecFrom(code, j, s)
    decreases |code| - j
  {
    if j < |code| {
      hide CodeAt, Exec, Step;
      CodeStep(m, p, code, j, s);
      ExecAdvances(code[j], s);
      var r := Exec(code[j], s);
      if r.Next? { RunCode(m, p, code, j + 1, r.s); }
    }
  }

  function Exec3(i0: Instr, i1: Instr, i2: Instr, s: Machine): StepResult {
    var r1 := Exec(i0, s);
    if !r1.Next? then r1 else
    var r2 := Exec(i1, r1.s);
    if !r2.Next? then r2 else Exec(i2, r2.s)
  }

  lemma RunThree(m: Module, p: Pos, i0: Instr, i1: Instr, i2: Instr, s: Machine)
    requires CodeAt(m, p, [i0, i1, i2]) && s.blk == p.blk && s.idx == p.idx
    ensures Run(m, s, 3) == Exec3(i0, i1, i2, s)
  {
    hide Exec, ExecFrom, Run;
    var code := [i0, i1, i2];
    RunCode(m, p, code, 0, s);
    ExecThree(code, s);
  }

  lemma ExecThree(code: seq<Instr>, s: Machine)
    requires |code| == 3
    ensures ExecFrom(code, 0, s) == Exec3(code[0], code[1], code[2], s)
  {
    hide Exec, ExecFrom;
    ExecOne(code, 0, s);
    var r1 := Exec(code[0], s);
    if r1.Next? {
      ExecOne(code, 1, r1.s);
      var r2 := Exec(code[1], r1.s);
      if r2.Next? {
        ExecOne(code, 2, r2.s);
        var r3 := Exec(code[2], r2.s);
        if r3.Next? { ExecOne(code, 3, r3.s); }
      }
    }
  }

  lemma ExecOne(code: seq<Instr>, j: nat, s: Machine)
    requires j <= |code|
    ensures ExecFrom(code, j, s) == if j == |code| then Next(s) else
      var r := Exec(code[j], s);
      if r.Next? then ExecFrom(code, j + 1, r.s) else r
  {
  }

  lemma WrapByte(x: byte)
    ensures Wrap(x) == x && Wrap(Signed(x)) == x
  {
  }

  // Three instructions that work on the cell under the head, away from any module.

  lemma ReadCell(i0: Instr, i1: Instr, i2: Instr, t0: nat, t1: nat, check: bool, s: State, ms: Machine, p: Pos)
    requires i0 == GetChar(t0) && i1 == Trunc8(t1, t0) && i2 == Store(t1, p.head)
    requires Agrees(check, s, ms, p) && Temp(t0, p) && Temp(t1, p)
    ensures Matches(check, ReadByte(s), Exec3(i0, i1, i2, ms), Pos(p.blk, p.idx + 3, p.head))
  {
    var m2 := Exec(i1, Exec(i0, ms).s).s;
    var b := if s.input == [] then 255 else s.input[0];
    assert m2.env[t1] == b by { WrapByte(b); }
  }

  lemma WriteCell(i0: Instr, i1: Instr, i2: Instr, t0: nat, t1: nat, check: bool, s: State, ms: Machine, p: Pos)
    requires i0 == Load(t0, p.head) && i1 == SExt(t1, t0) && i2 == PutChar(t1)
    requires Agrees(check, s, ms, p) && Temp(t0, p) && Temp(t1, p)
    ensures Matches(check, WriteByte(s), Exec3(i0, i1, i2, ms), Pos(p.blk, p.idx + 3, p.head))
  {
    if s.OnTape() { WrapByte(s.tape[s.head]); }
  }

  lemma ChangeCell(i0: Instr, i1: Instr, i2: Instr, t0: nat, t1: nat, k: int, check: bool, s: State, ms: Machine, p: Pos)
    requires i0 == Load(t0, p.head) && i1 == Add8(t1, t0, Wrap(k)) && i2 == Store(t1, p.head)
    requires Agrees(check, s, ms, p) && Temp(t0, p) && Temp(t1, p)
    ensures Matches(check, Change(s, k), Exec3(i0, i1, i2, ms), Pos(p.blk, p.idx + 3, p.head))
  {
    if s.OnTape() { ModAdd(k, s.tape[s.head]); }
  }

  lemma CodePrefix(m: Module, p: Pos, code: seq<Instr>, n: nat)
    requires CodeAt(m, p, code) && n <= |code|
    ensures CodeAt(m, p, code[..n])
  {
    SliceFront(m[p.blk].instrs, p.idx, p.idx + |code|, n);
  }

  lemma SliceFront(s: seq<Instr>, a: nat, b: nat, n: nat)
    requires a + n <= b <= |s|
    ensures s[a..b][..n] == s[a..a + n]
  {
  }

  lemma Moves(m: Module, check: bool, inst: Inst, p: Pos, q: Pos, s: State, ms: Machine) returns (n: nat)
    requires inst.IMove? && ImplementsInst(m, check, inst, p, q) && Agrees(check, s, ms, p) && HasEnding(m, check)
    ensures Matches(check, Move(check, s, inst.k), Run(m, ms, n), q)
  {
    var IMove(k, h, c0, c1, c2, next) := inst;
    if !check {
      CodeStep(m, p, [Gep(h, p.head, k)], 0, ms);
      n := 1;
    } else {
      var code := [Gep(h, p.head, k), ICmpUGE(c0, h, ARRMAX), ICmpULT(c1, h, ARR), Or(c2, c0, c1)];
      CodePrefix(m, p, code, 3);
      assert code[..3] == [code[0], code[1], code[2]];
      RunThree(m, p, code[0], code[1], code[2], ms);
      var m3 := Run(m, ms, 3).s;
      CodeStep(m, p, code, 3, m3);
      var m4 := Exec(code[3], m3).s;
      assert Run(m, ms, 4) == Next(m4) by { RunAdd(m, ms, 3, 1); }
      var s' := s.(head := s.head + k);
      assert m4.env[c2] == Bit(!s'.OnTape());
      var r5 := Step(m, m4);
      assert r5.Next?;
      assert Run(m, ms, 5) == r5 by { RunAdd(m, ms, 4, 1); }
      n := 5;
      if !s'.OnTape() {
        n := 9;
        ErrorExit(m, r5.s);
        RunAdd(m, ms, 5, 4);
      }
    }
  }

  /** The error block reports and ends the program. */
  lemma ErrorExit(m: Module, ms: Machine)
    requires HasEnding(m, true) && ms.blk == ABERROR && ms.idx == 0 && ARR in ms.env
    ensures var r := Run(m, ms, 4);
      r.Stop? && r.s.tape == ms.tape && r.s.input == ms.input && r.s.output == ms.output + [Report]
  {
    var m1 := Step(m, ms).s;
    var m2 := Step(m, m1).s;
    var m3 := Step(m, m2).s;
    assert Step(m, m3).Stop?;
  }

  /** One evaluation of the loop test, from the start of the test block. */
  lemma Test(m: Module, check: bool, inst: Inst, p: Pos, q: Pos, s: State, ms: Machine) returns (n: nat)
    requires inst.ILoop? && LoopShape(m, inst, p, q) && Agrees(check, s, ms, Pos(inst.test, 0, inst.phi))
    ensures n > 0
    ensures var r := Run(m, ms, n);
      if !s.OnTape() then r.Undefined?
      else r.Next? && Agrees(check, s, r.s, if s.tape[s.head] == 0 then q else Entry(inst.body))
  {
    var ILoop(body, test, phi, t0, c, h) := inst;
    var code := [Load(t0, phi), ICmpEQ0(c, t0)];
    var at := Pos(test, 0, phi);
    n := 3;
    CodeStep(m, at, code, 0, ms);
    if s.OnTape() {
      var m1 := Step(m, ms).s;
      CodeStep(m, at, code, 1, m1);
      var m2 := Step(m, m1).s;
      assert m2.idx == 2;
      assert Step(m, m2) == Jump(m, m2, if s.tape[s.head] == 0 then q.blk else Entry(body).blk);
    }
  }

  /** From the end of a loop's body control returns to its test. */
  lemma BackEdge(m: Module, check: bool, inst: Inst, p: Pos, q: Pos, s: State, ms: Machine)
    requires inst.ILoop? && LoopShape(m, inst, p, q) && Agrees(check, s, ms, inst.body.at)
    ensures var r := Step(m, ms); r.Next? && Agrees(check, s, r.s, Pos(inst.test, 0, inst.phi))
  {
  }

  lemma LoopEnds(m: Module, check: bool, inst: Inst, p: Pos, q: Pos, s: State, ms: Machine, fuel: nat) returns (n: nat)
    requires inst.ILoop? && LoopShape(m, inst, p, q) && Agrees(check, s, ms, Pos(inst.test, 0, inst.phi))
    requires !s.OnTape() || s.tape[s.head] == 0
    ensures var o := EvalSym(check, LoopSym(SymsOf(inst.body)), s, fuel);
      !o.Timeout? && Matches(check, o, Run(m, ms, n), q)
  {
    n := Test(m, check, inst, p, q, s, ms);
  }

  lemma LoopUnfolds(check: bool, body: Syms, s: State, fuel: nat)
    requires s.OnTape() && s.tape[s.head] != 0 && fuel > 0
    ensures EvalSym(check, LoopSym(body), s, fuel) == (
      var r := EvalSyms(check, body, s, fuel - 1);
      if r.Done? then EvalSym(check, LoopSym(body), r.s, fuel - 1) else r)
  {
  }

  lemma {:induction false} SimulateLoop(m: Module, check: bool, inst: Inst, p: Pos, q: Pos, s: State, ms: Machine, fuel: nat)
    returns (n: nat)
    requires inst.ILoop? && LoopShape(m, inst, p, q) && Implements(m, check, inst.body) && HasEnding(m, check)
    requires Agrees(check, s, ms, Pos(inst.test, 0, inst.phi))
    ensures var o := EvalSym(check, LoopSym(SymsOf(inst.body)), s, fuel);
      Matches(check, o, Run(m, ms, n), q) && (o.Timeout? ==> n >= fuel)
    decreases fuel, inst, 0
  {
    if !s.OnTape() || s.tape[s.head] == 0 {
      n := LoopEnds(m, check, inst, p, q, s, ms, fuel);
    } else if fuel == 0 {
      n := 0;
    } else {
      n := Test(m, check, inst, p, q, s, ms);
      var s1 := Run(m, ms, n).s;
      var k := SimulateRound(m, check, inst, p, q, s, s1, fuel);
      RunAdd(m, ms, n, k);
      n := n + k;
    }
  }

  lemma {:induction false} SimulateRound(m: Module, check: bool, inst: Inst, p: Pos, q: Pos, s: State, ms: Machine, fuel: nat)
    returns (n: nat)
    requires inst.ILoop? && LoopShape(m, inst, p, q) && Implements(m, check, inst.body) && HasEnding(m, check)
    requires s.OnTape() && s.tape[s.head] != 0 && fuel > 0
    requires Agrees(check, s, ms, Entry(inst.body))
    ensures var o := EvalSym(check, LoopSym(SymsOf(inst.body)), s, fuel);
      Matches(check, o, Run(m, ms, n), q) && (o.Timeout? ==> n + 1 >= fuel)
    decreases fuel - 1, inst, 2
  {
    hide EvalSym, EvalSyms, Agrees, Implements, LoopShape, HasEnding, Step, SymsOf;
    var body := inst.body;
    LoopUnfolds(check, SymsOf(body), s, fuel);
    var k := SimulateCode(m, check, body, s, ms, fuel - 1);
    var r := EvalSyms(check, SymsOf(body), s, fuel - 1);
    if r.Done? {
      var m4 := Run(m, ms, k).s;
      BackEdge(m, check, inst, p, q, r.s, m4);
      var m5 := Step(m, m4).s;
      var j := SimulateLoop(m, check, inst, p, q, r.s, m5, fuel - 1);
      assert Run(m, ms, k + 1) == Next(m5) by { RunAdd(m, ms, k, 1); RunOne(m, m4); }
      RunAdd(m, ms, k + 1, j);
      n := k + 1 + j;
    } else {
      n := k;
    }
  }

  lemma RunOne(m: Module, ms: Machine)
    ensures Run(m, ms, 1) == Step(m, ms)
  {
    hide Step;
    assert Step(m, ms).Next? ==> Run(m, Step(m, ms).s, 0) == Step(m, ms);
  }

  lemma RunFirst(m: Module, ms: Machine, k: nat)
    requires Step(m, ms).Next?
    ensures Run(m, ms, 1 + k) == Run(m, Step(m, ms).s, k)
  {
    hide Step;
  }

  /** Before a loop control goes to its test. */
  lemma EntryEdge(m: Module, check: bool, inst: Inst, p: Pos, q: Pos, s: State, ms: Machine)
    requires inst.ILoop? && LoopShape(m, inst, p, q) && Agrees(check, s, ms, p)
    ensures var r := Step(m, ms); r.Next? && Agrees(check, s, r.s, Pos(inst.test, 0, inst.phi))
  {
  }

  lemma {:induction false} SimulateInst(m: Module, check: bool, inst: Inst, p: Pos, q: Pos, s: State, ms: Machine, fuel: nat)
    returns (n: nat)
    requires ImplementsInst(m, check, inst, p, q) && Agrees(check, s, ms, p) && HasEnding(m, check)
    ensures var o := EvalSym(check, SymOf(inst), s, fuel);
      Matches(check, o, Run(m, ms, n), q) && (o.Timeout? ==> n >= fuel)
    decreases fuel, inst, 1
  {
    hide Matches, HasEnding, LoopShape, CodeAt, EvalSyms, Implements, Run, Step, Exec;
    match inst
    case IMove(_, _, _, _, _, _) => n := Moves(m, check, inst, p, q, s, ms);
    case ILoop(_, _, _, _, _, _) =>
      EntryEdge(m, check, inst, p, q, s, ms);
      var k := SimulateLoop(m, check, inst, p, q, s, Step(m, ms).s, fuel);
      RunFirst(m, ms, k);
      n := 1 + k;
    case IRead(t0, t1) =>
      n := 3;
      RunThree(m, p, GetChar(t0), Trunc8(t1, t0), Store(t1, p.head), ms);
      ReadCell(GetChar(t0), Trunc8(t1, t0), Store(t1, p.head), t0, t1, check, s, ms, p);
    case IWrite(t0, t1) =>
      n := 3;
      RunThree(m, p, Load(t0, p.head), SExt(t1, t0), PutChar(t1), ms);
      WriteCell(Load(t0, p.head), SExt(t1, t0), PutChar(t1), t0, t1, check, s, ms, p);
    case IChange(k, t0, t1) =>
      n := 3;
      RunThree(m, p, Load(t0, p.head), Add8(t1, t0, Wrap(k)), Store(t1, p.head), ms);
      ChangeCell(Load(t0, p.head), Add8(t1, t0, Wrap(k)), Store(t1, p.head), t0, t1, k, check, s, ms, p);
  }

  lemma RunZero(m: Module, ms: Machine)
    ensures Run(m, ms, 0) == Next(ms)
  {
  }

  lemma {:induction false} SimulateCode(m: Module, check: bool, code: Code, s: State, ms: Machine, fuel: nat)
    returns (n: nat)
    requires Implements(m, check, code) && Agrees(check, s, ms, Entry(code)) && HasEnding(m, check)
    ensures var o := EvalSyms(check, SymsOf(code), s, fuel);
      Matches(check, o, Run(m, ms, n), code.at) && (o.Timeout? ==> n >= fuel)
    decreases fuel, code
  {
    hide Run, Agrees, ImplementsInst, EvalSym, HasEnding;
    RunZero(m, ms);
    match code
    case Begin(_) => n := 0;
    case More(init, inst, at) =>
      n := SimulateCode(m, check, init, s, ms, fuel);
      var o := EvalSyms(check, SymsOf(init), s, fuel);
      if o.Done? {
        var k := SimulateInst(m, check, inst, init.at, at, o.s, Run(m, ms, n).s, fuel);
        RunAdd(m, ms, n, k);
        n := n + k;
      }
  }
}
