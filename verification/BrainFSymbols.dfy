/** Programs after run folding: each maximal run of `+-` or `<>` is one symbol with a net amount. */
module BrainFSymbols {
  import opened BrainFSource

  datatype Sym = ReadSym | WriteSym | MoveSym(k: int) | ChangeSym(k: int) | LoopSym(body: Syms)

  datatype Syms = NoSyms | Add(init: Syms, last: Sym)

  /** Adds a step to the run of changes at the end, or starts one. */
  function AddChange(q: Syms, k: int): Syms {
    if q.Add? && q.last.ChangeSym? then Add(q.init, ChangeSym(q.last.k + k)) else Add(q, ChangeSym(k))
  }

  function AddMove(q: Syms, k: int): Syms {
    if q.Add? && q.last.MoveSym? then Add(q.init, MoveSym(q.last.k + k)) else Add(q, MoveSym(k))
  }

  function Fold(p: Prog): Syms {
    match p
    case Empty => NoSyms
    case Then(init, c) =>
      match c
      case Inc => AddChange(Fold(init), 1)
      case Dec => AddChange(Fold(init), -1)
      case Left => AddMove(Fold(init), -1)
      case Right => AddMove(Fold(init), 1)
      case Read => Add(Fold(init), ReadSym)
      case Write => Add(Fold(init), WriteSym)
      case Loop(body) => Add(Fold(init), LoopSym(Fold(body)))
  }

  /** As in the source semantics, except that a checked move is checked once, at the end of its run. */
  function EvalSym(check: bool, c: Sym, s: State, fuel: nat): Outcome
    decreases fuel, c
  {
    match c
    case ReadSym => ReadByte(s)
    case WriteSym => WriteByte(s)
    case MoveSym(k) => Move(check, s, k)
    case ChangeSym(k) => Change(s, k)
    case LoopSym(body) =>
      if !s.OnTape() then Fault
      else if s.tape[s.head] == 0 then Done(s)
      else if fuel == 0 then Timeout
      else
        var r := EvalSyms(check, body, s, fuel - 1);
        if r.Done? then EvalSym(check, c, r.s, fuel - 1) else r
  }

  function EvalSyms(check: bool, p: Syms, s: State, fuel: nat): Outcome
    decreases fuel, p
  {
    match p
    case NoSyms => Done(s)
    case Add(init, c) =>
      var r := EvalSyms(check, init, s, fuel);
      if r.Done? then EvalSym(check, c, r.s, fuel) else r
  }

  // ----- folding keeps the meaning of unchecked programs -----

  lemma ChangeTwice(s: State, j: int, k: int)
    ensures (var r := Change(s, j); if r.Done? then Change(r.s, k) else r) == Change(s, j + k)
  {
    if s.OnTape() {
      ModAdd(s.tape[s.head] + j, k);
    }
  }

  lemma ModAdd(a: int, b: int)
    ensures Wrap(Wrap(a) + b) == Wrap(a + b)
  {
    assert a == 256 * (a / 256) + a % 256;
    var q := (a % 256 + b) / 256;
    assert a + b == 256 * (a / 256 + q) + (a % 256 + b) % 256;
  }

  /** The compiler's folding is invisible to a program whose moves are not checked. */
  lemma {:induction false} FoldKeepsMeaning(p: Prog, s: State, fuel: nat)
    ensures EvalSyms(false, Fold(p), s, fuel) == Eval(false, p, s, fuel)
    decreases fuel, p
  {
    match p
    case Empty =>
    case Then(init, c) =>
      FoldKeepsMeaning(init, s, fuel);
      var q := Fold(init);
      var r := Eval(false, init, s, fuel);
      match c
      case Inc | Dec =>
        var k := if c.Inc? then 1 else -1;
        if q.Add? && q.last.ChangeSym? {
          var m := EvalSyms(false, q.init, s, fuel);
          if m.Done? { ChangeTwice(m.s, q.last.k, k); }
        }
      case Left | Right =>
      case Read =>
      case Write =>
      case Loop(body) =>
        if r.Done? { FoldKeepsLoop(body, r.s, fuel); }
  }

  lemma {:induction false} FoldKeepsLoop(body: Prog, s: State, fuel: nat)
    ensures EvalSym(false, LoopSym(Fold(body)), s, fuel) == EvalCmd(false, Loop(body), s, fuel)
    decreases fuel, body, 0
  {
    if s.OnTape() && s.tape[s.head] != 0 && fuel > 0 {
      FoldKeepsMeaning(body, s, fuel - 1);
      var r := Eval(false, body, s, fuel - 1);
      if r.Done? { FoldKeepsLoop(body, r.s, fuel - 1); }
    }
  }
}
