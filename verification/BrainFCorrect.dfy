/** The compiled function does what the text says: same output, tape and head, in both directions. */
module BrainFCorrect {
  import opened BrainFSource
  import opened BrainFSymbols
  import opened BrainFMachine
  import opened BrainFCode
  import opened BrainFSimulation
  import opened BrainFCompiler

  /** The program starts on a zeroed tape, with the head in its middle. */
  function Start(mem: nat, input: seq<byte>): State {
    State(seq(mem, _ => 0), mem / 2, input, [])
  }

  /** The function starts with nothing in its registers and whatever `junk` malloc's memory holds. */
  function Boot(base: int, junk: seq<byte>, input: seq<byte>): Machine {
    Machine(0, 0, map[], base, junk, input, [])
  }

  /** The run's result shows the program's outcome; `head` is the register that holds the head at the end. */
  ghost predicate Shows(o: Outcome, r: StepResult, head: nat) {
    match o
    case Done(s) =>
      r.Stop? && r.s.tape == s.tape && r.s.input == s.input && r.s.output == s.output
      && head in r.s.env && r.s.env[head] == r.s.base + s.head
    case Left(s) => r.Stop? && r.s.tape == s.tape && r.s.input == s.input && r.s.output == s.output + [Report]
    case Fault => r.Undefined?
    case Timeout => r.Next?
  }

  lemma HeaderRuns(m: Module, mem: nat, bounds: bool, prog: Prog, code: Code, base: int, junk: seq<byte>, input: seq<byte>)
    returns (n: nat)
    requires Compiles(m, mem, bounds, prog, code) && |junk| == mem
    ensures var r := Run(m, Boot(base, junk, input), n);
      r.Next? && Agrees(bounds, Start(mem, input), r.s, Entry(code))
  {
    var h := Entry(code).head;
    var body := HeaderCode(mem, bounds, h);
    n := |body|;
    var s0 := Boot(base, junk, input);
    RunCode(m, Pos(0, 0, 0), body, 0, s0);
    var s1 := Exec(body[0], s0).s;
    var s2 := Exec(body[1], s1).s;
    var s3 := Exec(body[2], s2).s;
    assert ExecFrom(body, 0, s0) == ExecFrom(body, 2, s2);
    if bounds {
      assert body[2] == Gep(ARRMAX, ARR, mem) && body[3] == Gep(h, ARR, mem / 2);
      assert ExecFrom(body, 2, s2) == ExecFrom(body, 3, s3) == ExecFrom(body, 4, Exec(body[3], s3).s);
    } else {
      assert ExecFrom(body, 2, s2) == ExecFrom(body, 3, s3);
    }
  }

  /** From the code's end the function frees the tape and returns. */
  lemma Returns(m: Module, mem: nat, bounds: bool, prog: Prog, code: Code, s: State, ms: Machine)
    requires Compiles(m, mem, bounds, prog, code) && Agrees(bounds, s, ms, code.at)
    ensures Shows(Done(s), Run(m, ms, 3), code.at.head)
  {
    var m1 := Step(m, ms).s;
    var m2 := Step(m, m1).s;
    assert Step(m, m2) == Stop(m2);
  }

  /** Whatever the folded program's outcome, the compiled function shows it; if it takes long, so does the function. */
  lemma RunsFolded(m: Module, mem: nat, bounds: bool, prog: Prog, code: Code, base: int, junk: seq<byte>, input: seq<byte>,
                   fuel: nat) returns (n: nat)
    requires Compiles(m, mem, bounds, prog, code) && |junk| == mem
    ensures var o := EvalSyms(bounds, Fold(prog), Start(mem, input), fuel);
      Shows(o, Run(m, Boot(base, junk, input), n), code.at.head) && (o.Timeout? ==> n >= fuel)
  {
    hide Run, EvalSyms, Fold, Agrees, Implements, HasEnding;
    var s0 := Boot(base, junk, input);
    n := HeaderRuns(m, mem, bounds, prog, code, base, junk, input);
    var s1 := Run(m, s0, n).s;
    var k := SimulateCode(m, bounds, code, Start(mem, input), s1, fuel);
    RunAdd(m, s0, n, k);
    n := n + k;
    var o := EvalSyms(bounds, Fold(prog), Start(mem, input), fuel);
    if o.Done? {
      var s2 := Run(m, s0, n).s;
      Returns(m, mem, bounds, prog, code, o.s, s2);
      RunAdd(m, s0, n, 3);
      n := n + 3;
    }
  }

  /** Without bounds checks: every terminating or faulting run of the text is a run of the compiled function. */
  lemma TextToFunction(m: Module, mem: nat, prog: Prog, code: Code, base: int, junk: seq<byte>, input: seq<byte>, fuel: nat)
    returns (n: nat)
    requires Compiles(m, mem, false, prog, code) && |junk| == mem
    ensures var o := Eval(false, prog, Start(mem, input), fuel);
      Shows(o, Run(m, Boot(base, junk, input), n), code.at.head) && (o.Timeout? ==> n >= fuel)
  {
    FoldKeepsMeaning(prog, Start(mem, input), fuel);
    n := RunsFolded(m, mem, false, prog, code, base, junk, input, fuel);
  }

  /** And conversely: when the compiled function ends, within `n` steps, so does the text, and the same way.
      So one diverges exactly when the other does. */
  lemma FunctionToText(m: Module, mem: nat, prog: Prog, code: Code, base: int, junk: seq<byte>, input: seq<byte>, n: nat)
    requires Compiles(m, mem, false, prog, code) && |junk| == mem
    requires !Run(m, Boot(base, junk, input), n).Next?
    ensures var o := Eval(false, prog, Start(mem, input), n);
      !o.Timeout? && Shows(o, Run(m, Boot(base, junk, input), n), code.at.head)
  {
    var s0 := Boot(base, junk, input);
    var k := TextToFunction(m, mem, prog, code, base, junk, input, n);
    if k >= n { RunStays(m, s0, n, k); } else { RunStays(m, s0, k, n); }
  }
}
