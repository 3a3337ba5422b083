/** The BrainF language: its text, its abstract programs and their meaning, one character at a time. */
module BrainFSource {

  type byte = x: int | 0 <= x < 256

  /** Something the running program writes to its standard output. */
  datatype Event = Put(b: byte) | Report

  datatype Cmd = Inc | Dec | Left | Right | Read | Write | Loop(body: Prog)

  /** A program, built by adding commands at its end. */
  datatype Prog = Empty | Then(init: Prog, last: Cmd)

  // ----- text -----

  predicate IsStep(c: char) { c == '+' || c == '-' || c == '<' || c == '>' || c == ',' || c == '.' }

  predicate IsBracket(c: char) { c == '[' || c == ']' }

  predicate IsCommand(c: char) { IsStep(c) || IsBracket(c) }

  /** The text without its comment characters. */
  function Strip(text: string): string {
    if text == "" then ""
    else if IsCommand(text[0]) then [text[0]] + Strip(text[1..])
    else Strip(text[1..])
  }

  function PrintCmd(c: Cmd): string {
    match c
    case Inc => "+"
    case Dec => "-"
    case Left => "<"
    case Right => ">"
    case Read => ","
    case Write => "."
    case Loop(body) => "[" + Print(body) + "]"
  }

  function Print(p: Prog): string {
    match p
    case Empty => ""
    case Then(init, c) => Print(init) + PrintCmd(c)
  }

  datatype Brackets = Balanced | ExtraBracket | MissingBracket

  /** How the brackets of a text nest, when `depth` of them are already open. */
  function Scan(text: string, depth: nat): Brackets {
    if text == "" then if depth == 0 then Balanced else MissingBracket
    else if text[0] == '[' then Scan(text[1..], depth + 1)
    else if text[0] == ']' then if depth == 0 then ExtraBracket else Scan(text[1..], depth - 1)
    else Scan(text[1..], depth)
  }

  /** Printed programs are balanced, wherever they stand. */
  lemma {:induction false} ScanPrint(p: Prog, rest: string, depth: nat)
    ensures Scan(Print(p) + rest, depth) == Scan(rest, depth)
  {
    match p
    case Empty =>
      assert Print(p) + rest == rest;
    case Then(init, c) =>
      assert Print(p) + rest == Print(init) + (PrintCmd(c) + rest);
      ScanPrint(init, PrintCmd(c) + rest, depth);
      if c.Loop? {
        var inner := Print(c.body) + ("]" + rest);
        assert PrintCmd(c) + rest == "[" + inner;
        assert ("[" + inner)[1..] == inner;
        ScanPrint(c.body, "]" + rest, depth + 1);
        assert ("]" + rest)[1..] == rest;
      } else {
        assert (PrintCmd(c) + rest)[1..] == rest;
      }
  }

  /** A comment-free text determines the program it prints. */
  lemma PrintInjective(p: Prog, q: Prog)
    requires Print(p) == Print(q)
    ensures p == q
  {
    assert "" + Print(p) == Print(p) && "" + Print(q) == Print(q);
    PrintInjectiveAfter("", p, "", q);
  }

  /** What may stand before a program: nothing, or the bracket that opens it. */
  predicate Opens(pre: string) { pre == "" || pre[|pre| - 1] == '[' }

  /** The character a command ends with. */
  function LastChar(c: Cmd): char {
    match c
    case Inc => '+' case Dec => '-' case Left => '<' case Right => '>' case Read => ',' case Write => '.'
    case Loop(_) => ']'
  }

  lemma LastCharOf(pre: string, p: Prog, c: Cmd, s: string)
    requires s == pre + Print(Then(p, c))
    ensures s != "" && s[|s| - 1] == LastChar(c)
    ensures !c.Loop? ==> s[..|s| - 1] == pre + Print(p)
    ensures c.Loop? ==> s[..|s| - 1] == pre + Print(p) + "[" + Print(c.body)
  {
    assert s == (pre + Print(p)) + PrintCmd(c);
    if c.Loop? {
      assert PrintCmd(c) == "[" + Print(c.body) + "]";
    }
  }

  lemma {:induction false} PrintInjectiveAfter(pre: string, p: Prog, pre': string, q: Prog)
    requires Opens(pre) && Opens(pre')
    requires pre + Print(p) == pre' + Print(q)
    ensures pre == pre' && p == q
    decreases p
  {
    var s := pre + Print(p);
    assert pre + "" == pre && pre' + "" == pre';
    match (p, q)
    case (Empty, Empty) =>
    case (Then(i, c), Empty) =>
      LastCharOf(pre, i, c, s);
    case (Empty, Then(j, d)) =>
      LastCharOf(pre', j, d, s);
    case (Then(i, c), Then(j, d)) =>
      LastCharOf(pre, i, c, s);
      LastCharOf(pre', j, d, s);
      var t, t' := pre + Print(i), pre' + Print(j);
      if c.Loop? {
        PrintInjectiveAfter(t + "[", c.body, t' + "[", d.body);
        assert (t + "[")[..|t|] == t && (t' + "[")[..|t'|] == t';
      }
      PrintInjectiveAfter(pre, i, pre', j);
  }

  // ----- meaning -----

  /** The tape, the head's position on it, the input still unread and the output so far. */
  datatype State = State(tape: seq<byte>, head: int, input: seq<byte>, output: seq<Event>) {
    predicate OnTape() { 0 <= head < |tape| }
  }

  /** Fault: the tape was accessed outside its bounds. Left: a bounds check saw the head outside. */
  datatype Outcome = Done(s: State) | Left(s: State) | Fault | Timeout

  /** Eight-bit arithmetic wraps around. */
  function Wrap(k: int): byte { k % 256 }

  function Change(s: State, k: int): Outcome {
    if s.OnTape() then Done(s.(tape := s.tape[s.head := Wrap(s.tape[s.head] + k)])) else Fault
  }

  function Move(check: bool, s: State, k: int): Outcome {
    var s' := s.(head := s.head + k);
    if check && !s'.OnTape() then Outcome.Left(s') else Done(s')
  }

  /** getchar answers -1 at the end of the input, which the tape keeps as 255. */
  function ReadByte(s: State): Outcome {
    if !s.OnTape() then Fault
    else if s.input == [] then Done(s.(tape := s.tape[s.head := 255]))
    else Done(s.(tape := s.tape[s.head := s.input[0]], input := s.input[1..]))
  }

  function WriteByte(s: State): Outcome {
    if s.OnTape() then Done(s.(output := s.output + [Put(s.tape[s.head])])) else Fault
  }

  /** Runs one command; `fuel` bounds the nesting of loop rounds. With `check`, every move is checked. */
  function EvalCmd(check: bool, c: Cmd, s: State, fuel: nat): Outcome
    decreases fuel, c
  {
    match c
    case Inc => Change(s, 1)
    case Dec => Change(s, -1)
    case Left => Move(check, s, -1)
    case Right => Move(check, s, 1)
    case Read => ReadByte(s)
    case Write => WriteByte(s)
    case Loop(body) =>
      if !s.OnTape() then Fault
      else if s.tape[s.head] == 0 then Done(s)
      else if fuel == 0 then Timeout
      else
        var r := Eval(check, body, s, fuel - 1);
        if r.Done? then EvalCmd(check, c, r.s, fuel - 1) else r
  }

  function Eval(check: bool, p: Prog, s: State, fuel: nat): Outcome
    decreases fuel, p
  {
    match p
    case Empty => Done(s)
    case Then(init, c) =>
      var r := Eval(check, init, s, fuel);
      if r.Done? then EvalCmd(check, c, r.s, fuel) else r
  }
}
