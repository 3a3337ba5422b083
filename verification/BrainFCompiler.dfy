/** The compiler: reads the text with one symbol of lookahead and emits blocks as it goes. */
module BrainFCompiler {
  import opened BrainFSource
  import opened BrainFSymbols
  import opened BrainFMachine
  import opened BrainFCode
  import opened BrainFSimulation

  datatype Symbol = NONE | READ | WRITE | MOVE | CHANGE | LOOP | ENDLOOP | EOF

  /** A program followed by a symbol that is still to be written out. */
  function AddSymbol(q: Syms, sym: Symbol, value: int): Syms {
    match sym
    case READ => Add(q, ReadSym)
    case WRITE => Add(q, WriteSym)
    case MOVE => Add(q, MoveSym(value))
    case CHANGE => Add(q, ChangeSym(value))
    case _ => q
  }

  /** The bracket, if any, that a symbol stands for. */
  function Bracket(sym: Symbol): string {
    match sym case LOOP => "[" case ENDLOOP => "]" case _ => ""
  }

  predicate IsRun(sym: Symbol) { sym == MOVE || sym == CHANGE }

  predicate EndsInRun(q: Syms) { q.Add? && (q.last.MoveSym? || q.last.ChangeSym?) }

  /** What one more character does to the program read so far. */
  function CmdOf(c: char): Cmd
    requires IsStep(c)
  {
    if c == '+' then Inc else if c == '-' then Dec else if c == '<' then Cmd.Left else if c == '>' then Cmd.Right
    else if c == ',' then Read else Write
  }

  /** The symbol being read and the one read beyond it. */
  datatype Lexer = Lexer(sym: Symbol, value: int, nextsym: Symbol, nextvalue: int, loop: bool)

  /** A symbol that is complete as soon as its character is seen. */
  function Single(l: Lexer, s: Symbol): Lexer {
    if l.sym == NONE then l.(sym := s, loop := false) else l.(nextsym := s, loop := false)
  }

  /** One more step of a run: it continues the run, starts one, or is read beyond the other run. */
  function Step1(l: Lexer, s: Symbol, direction: int): Lexer {
    if l.sym == s then l.(value := l.value + direction)
    else if l.sym == NONE then l.(sym := s, value := direction)
    else l.(nextsym := s, nextvalue := direction, loop := false)
  }

  function Feed(l: Lexer, c: char): Lexer {
    match c
    case '-' => Step1(l, CHANGE, -1)
    case '+' => Step1(l, CHANGE, 1)
    case '<' => Step1(l, MOVE, -1)
    case '>' => Step1(l, MOVE, 1)
    case ',' => Single(l, READ)
    case '.' => Single(l, WRITE)
    case '[' => Single(l, LOOP)
    case ']' => Single(l, ENDLOOP)
    case _ => l
  }

  function AtEof(l: Lexer): Lexer { Single(l, EOF) }

  /** The lexer's symbols are those of `prog` beyond `done`. */
  ghost predicate Reads(l: Lexer, prog: Prog, done: Syms) {
    && Fold(prog) == AddSymbol(AddSymbol(done, l.sym, l.value), l.nextsym, l.nextvalue)
    && (l.sym == NONE ==> !EndsInRun(done))
    && (if l.loop then l.nextsym == NONE && (l.sym == NONE || IsRun(l.sym))
        else l.sym != NONE && (IsRun(l.sym) <==> l.nextsym != NONE))
  }

  function Extended(p: Prog, c: char): Prog {
    if IsStep(c) then Then(p, CmdOf(c)) else p
  }

  lemma FeedReads(l: Lexer, prog: Prog, done: Syms, c: char)
    requires Reads(l, prog, done) && l.loop
    ensures Reads(Feed(l, c), Extended(prog, c), done)
    ensures (l.sym != NONE ==> Feed(l, c).sym == l.sym) && Feed(l, c).sym != EOF && Feed(l, c).nextsym != EOF
  {
  }

  /** The commands of a program and the bracket, if any, read after it. */
  function Text(p: Prog, l: Lexer): string {
    Print(p) + Bracket(l.sym) + Bracket(l.nextsym)
  }

  lemma FeedBrackets(l: Lexer, c: char)
    requires Bracket(l.sym) == "" && l.nextsym == NONE
    ensures Bracket(Feed(l, c).sym) + Bracket(Feed(l, c).nextsym) == if IsBracket(c) then [c] else ""
  {
  }

  lemma TextIs(p: Prog, l: Lexer, b: string)
    requires Bracket(l.sym) + Bracket(l.nextsym) == b
    ensures Text(p, l) == Print(p) + b
  {
  }

  lemma FeedText(l: Lexer, p: Prog, text: string)
    requires Bracket(l.sym) == "" && l.nextsym == NONE && text != ""
    ensures Text(p, l) + Strip(text) == Text(Extended(p, text[0]), Feed(l, text[0])) + Strip(text[1..])
  {
    var c, rest := text[0], Strip(text[1..]);
    FeedBrackets(l, c);
    TextIs(p, l, "");
    TextIs(Extended(p, c), Feed(l, c), if IsBracket(c) then [c] else "");
    var t := Print(p);
    assert t + "" == t;
    if IsCommand(c) {
      ExtendedText(p, c);
      hide Print, Feed;
      Assoc(t, [c], rest);
    }
  }

  lemma ExtendedText(p: Prog, c: char)
    requires IsCommand(c)
    ensures Print(Extended(p, c)) + (if IsBracket(c) then [c] else "") == Print(p) + [c]
  {
    if IsStep(c) { assert PrintCmd(CmdOf(c)) == [c]; }
  }

  lemma Assoc(x: string, y: string, z: string)
    ensures x + (y + z) == (x + y) + z
  {
  }

  function Appended(m: Module, b: nat, i: Instr): Module
    requires b < |m|
  {
    m[b := m[b].(instrs := m[b].instrs + [i])]
  }

  function Terminated(m: Module, b: nat, t: Terminator): Module
    requires b < |m|
  {
    m[b := m[b].(term := Some(t))]
  }

  const NEWBLOCK: Block := Block(None, [], None)

  /** Between two states of the builder only the block it stood in, and new blocks, have changed. */
  ghost predicate Grows(m: Module, b: nat, m': Module, b': nat) {
    && Extends(m, m') && (b' == b || b' >= |m|)
    && forall i :: 0 <= i < |m| && i != b ==> m'[i] == m[i]
  }

  lemma GrowsTransitive(m: Module, b: nat, m': Module, b': nat, m'': Module, b'': nat)
    requires Grows(m, b, m', b') && Grows(m', b', m'', b'')
    ensures Grows(m, b, m'', b'')
  {
    ExtendsTransitive(m, m', m'');
    forall i | 0 <= i < |m| && i != b ensures m''[i] == m[i] {
      assert m'[i] == m[i];
    }
  }

  lemma ThreeGrow(m: Module, b: nat, h: nat, i0: Instr, i1: Instr, i2: Instr)
    requires b < |m| && m[b].term == None
    ensures var m' := Appended(Appended(Appended(m, b, i0), b, i1), b, i2);
      && Grows(m, b, m', b) && m'[b].instrs == m[b].instrs + [i0, i1, i2] && m'[b].term == None
      && CodeAt(m', Pos(b, |m[b].instrs|, h), [i0, i1, i2])
  {
  }

  /** The test block of a loop whose body is still being written. */
  ghost predicate OpenTest(m: Module, test: nat, phi: nat) {
    test < |m| && m[test].phi.Some? && m[test].phi.value.dst == phi && |m[test].phi.value.incoming| == 1
    && m[test].instrs == [] && m[test].term == None
  }

  /** The test block, once the body has ended at `e` and control leaves the loop to block `exit`. */
  ghost predicate ClosedTest(m: Module, m': Module, test: nat, phi: nat, body: nat, e: Pos, t0: nat, c: nat, exit: nat, h: nat) {
    && OpenTest(m, test, phi) && EndsAt(m', e.blk, e.idx, Br(test)) && test < |m'| && exit < |m'|
    && m'[test] == Block(Some(Phi(phi, m[test].phi.value.incoming + [(e.blk, e.head)])),
                         [Load(t0, phi), ICmpEQ0(c, t0)], Some(CondBr(c, exit, body)))
    && m'[exit] == Block(Some(Phi(h, [(test, phi)])), [], None)
    && h > ARRMAX && Temp(t0, Pos(test, 0, phi)) && Temp(c, Pos(test, 0, phi))
  }

  lemma GrowsIs(m: Module, b: nat, m': Module, b': nat)
    requires Grows(m, b, m', b')
    ensures Extends(m, m') && (b' == b || b' >= |m|) && forall i :: 0 <= i < |m| && i != b ==> m'[i] == m[i]
  {
  }

  /** Writing the body leaves the test block alone. */
  lemma StaysOpen(m: Module, b: nat, m': Module, b': nat, test: nat, phi: nat)
    requires Grows(m, b, m', b') && OpenTest(m, test, phi) && test != b
    ensures OpenTest(m', test, phi) && test != b' && m'[test] == m[test]
  {
  }

  lemma ClosedSince(m: Module, m1: Module, m2: Module, test: nat, phi: nat, body: nat, e: Pos, t0: nat, c: nat, exit: nat, h: nat)
    requires ClosedTest(m1, m2, test, phi, body, e, t0, c, exit, h) && OpenTest(m, test, phi) && m1[test] == m[test]
    ensures ClosedTest(m, m2, test, phi, body, e, t0, c, exit, h)
  {
  }

  lemma TerminatedExtends(m: Module, b: nat, t: Terminator)
    requires b < |m| && m[b].term == None
    ensures Extends(m, Terminated(m, b, t)) && EndsAt(Terminated(m, b, t), b, |m[b].instrs|, t)
  {
  }

  /** A finished loop, from the module `m0` before it to the module `m2` behind it. */
  lemma LoopBuilt(m0: Module, m1: Module, m2: Module, check: bool, code: Code, body: Code, test: nat, phi: nat,
                  t0: nat, c: nat, exit: nat, h: nat)
    requires Implements(m0, check, code) && code.at.blk < |m0| && m0[code.at.blk].term == None
    requires code.at.idx == |m0[code.at.blk].instrs| && test == |m0|
    requires m1 == Terminated(m0, code.at.blk, Br(test))
      + [Block(Some(Phi(phi, [(code.at.blk, code.at.head)])), [], None), NEWBLOCK]
    requires Extends(m1, m2) && forall i :: 0 <= i < |m0| ==> m2[i] == m1[i]
    requires Implements(m2, check, body) && Entry(body) == Pos(test + 1, 0, phi) && body.at.blk > test
    requires ClosedTest(m1, m2, test, phi, test + 1, body.at, t0, c, exit, h) && exit > test && phi > ARRMAX
    ensures Grows(m0, code.at.blk, m2, exit)
    ensures Implements(m2, check, More(code, ILoop(body, test, phi, t0, c, h), Pos(exit, 0, h)))
  {
    var p, q := code.at, Pos(exit, 0, h);
    assert forall i :: 0 <= i < |m0| && i != p.blk ==> m2[i] == m0[i];
    assert Extends(m0, m2);
    ImplementsGrows(m0, m2, check, code);
    var inst := ILoop(body, test, phi, t0, c, h);
    LoopLookups(p.blk, p.head, body.at.blk, body.at.head, test, phi);
    assert BlockExtends(m1[test + 1], m2[test + 1]);
    assert LoopShape(m2, inst, p, q);
  }

  /** The module with a move behind `code`: one instruction or, with a check of the bounds, four and a branch. */
  lemma MoveBuilt(m0: Module, check: bool, code: Code, inst: Inst, m2: Module, q: Pos)
    requires Implements(m0, check, code) && code.at.blk < |m0| && m0[code.at.blk].term == None
    requires code.at.idx == |m0[code.at.blk].instrs| && inst.IMove? && inst.h > ARRMAX && q.head == inst.h
    requires var p, m1 := code.at, Appended(m0, code.at.blk, Gep(inst.h, code.at.head, inst.k));
      if check then
        var m4 := Appended(Appended(Appended(m1, p.blk, ICmpUGE(inst.c0, inst.h, ARRMAX)), p.blk, ICmpULT(inst.c1, inst.h, ARR)),
          p.blk, Or(inst.c2, inst.c0, inst.c1));
        && m2 == Terminated(m4 + [NEWBLOCK], p.blk, CondBr(inst.c2, ABERROR, inst.next)) && inst.next == |m0|
        && q.blk == |m0| && q.idx == 0 && inst.h < inst.c0 < inst.c1 < inst.c2
      else m2 == m1 && q.blk == p.blk && q.idx == p.idx + 1
    ensures Implements(m2, check, More(code, inst, q)) && Grows(m0, code.at.blk, m2, q.blk)
  {
    if check { MoveChecked(m0, code.at, inst, m2, q); } else { MovePlain(m0, code.at, inst, m2, q); }
    hide Appended, Terminated, Grows, ImplementsInst;
    assert Extends(m0, m2) by { GrowsIs(m0, code.at.blk, m2, q.blk); }
    ImplementsGrows(m0, m2, check, code);
  }

  lemma MovePlain(m0: Module, p: Pos, inst: Inst, m2: Module, q: Pos)
    requires p.blk < |m0| && m0[p.blk].term == None && p.idx == |m0[p.blk].instrs|
    requires inst.IMove? && inst.h > ARRMAX && q == Pos(p.blk, p.idx + 1, inst.h)
    requires m2 == Appended(m0, p.blk, Gep(inst.h, p.head, inst.k))
    ensures ImplementsInst(m2, false, inst, p, q) && Grows(m0, p.blk, m2, q.blk)
  {
    assert CodeAt(m2, p, [Gep(inst.h, p.head, inst.k)]);
  }

  lemma MoveChecked(m0: Module, p: Pos, inst: Inst, m2: Module, q: Pos)
    requires p.blk < |m0| && m0[p.blk].term == None && p.idx == |m0[p.blk].instrs|
    requires inst.IMove? && inst.h > ARRMAX && q == Pos(inst.next, 0, inst.h)
    requires inst.next == |m0| && inst.h < inst.c0 < inst.c1 < inst.c2
    requires var m1 := Appended(m0, p.blk, Gep(inst.h, p.head, inst.k));
      var m4 := Appended(Appended(Appended(m1, p.blk, ICmpUGE(inst.c0, inst.h, ARRMAX)), p.blk, ICmpULT(inst.c1, inst.h, ARR)),
        p.blk, Or(inst.c2, inst.c0, inst.c1));
      m2 == Terminated(m4 + [NEWBLOCK], p.blk, CondBr(inst.c2, ABERROR, inst.next))
    ensures ImplementsInst(m2, true, inst, p, q) && Grows(m0, p.blk, m2, q.blk)
  {
    var is3 := [ICmpUGE(inst.c0, inst.h, ARRMAX), ICmpULT(inst.c1, inst.h, ARR), Or(inst.c2, inst.c0, inst.c1)];
    assert m2[p.blk].instrs == m0[p.blk].instrs + ([Gep(inst.h, p.head, inst.k)] + is3);
    assert CodeAt(m2, p, [Gep(inst.h, p.head, inst.k)]);
  }

  lemma LoopLookups(b: nat, h: nat, e: nat, eh: nat, test: nat, phi: nat)
    requires b != e
    ensures Lookup([(b, h)] + [(e, eh)], b) == Some(h) && Lookup([(b, h)] + [(e, eh)], e) == Some(eh)
    ensures Lookup([(test, phi)], test) == Some(phi)
  {
    assert ([(b, h)] + [(e, eh)])[1..] == [(e, eh)];
  }

  /** How the brackets nest in a text that is a program up to a closing bracket or its end. */
  lemma ScanEnd(text: string, prog: Prog, sym: Symbol, rest: string, depth: nat)
    requires text == Print(prog) + Bracket(sym) + rest
    requires sym == ENDLOOP || (sym == EOF && rest == "")
    ensures sym == EOF ==> text == Print(prog) && Scan(text, depth) == if depth == 0 then Balanced else MissingBracket
    ensures sym == ENDLOOP ==> text == Print(prog) + "]" + rest && (depth == 0 ==> Scan(text, depth) == ExtraBracket)
  {
    ScanBracket(prog, sym, rest, depth);
    hide Scan, Print;
    assert text == Print(prog) + (Bracket(sym) + rest);
    if sym == EOF { assert text == Print(prog); }
  }

  lemma ScanBracket(prog: Prog, sym: Symbol, rest: string, depth: nat)
    requires sym == ENDLOOP || (sym == EOF && rest == "")
    ensures sym == EOF ==> Scan(Print(prog) + (Bracket(sym) + rest), depth) == if depth == 0 then Balanced else MissingBracket
    ensures sym == ENDLOOP && depth == 0 ==> Scan(Print(prog) + (Bracket(sym) + rest), depth) == ExtraBracket
  {
    hide Print;
    var b := Bracket(sym) + rest;
    ScanPrint(prog, b, depth);
    if sym == ENDLOOP { assert b[0] == ']'; } else { assert b == ""; }
  }

  /** The text read so far, before and after a symbol is written out. */
  lemma TextMoves(start: string, p: Prog, sym: Symbol, nextsym: Symbol, text: string, p': Prog, text': string)
    requires start == Print(p) + Bracket(sym) + Bracket(nextsym) + text
    requires sym == LOOP ==> nextsym == NONE
    ensures sym == LOOP ==> start == Print(p) + "[" + text
    ensures Print(p) + Bracket(sym) + text == Print(p') + text' && (sym == LOOP || (p == p' && text == text'))
      && sym != ENDLOOP
      ==> start == Print(p') + Bracket(nextsym) + text'
  {
  }

  lemma LoopText(prog: Prog, body: Prog, text: string, rest: string)
    requires text == Print(body) + "]" + rest
    ensures Print(prog) + "[" + text == Print(Then(prog, Loop(body))) + rest
  {
    assert Print(prog) + "[" + text == Print(prog) + ("[" + Print(body) + "]") + rest;
  }

  lemma OpenText(prog: Prog, text: string, depth: nat)
    ensures Scan(Print(prog) + "[" + text, depth) == Scan(text, depth + 1)
  {
    ScanPrint(prog, "[" + text, depth);
    assert Print(prog) + "[" + text == Print(prog) + ("[" + text);
    assert ("[" + text)[1..] == text;
  }

  /** A symbol to write out, perhaps one behind it, and the text behind both. */
  ghost predicate Pending(start: string, prog: Prog, sym: Symbol, value: int, nextsym: Symbol, nextvalue: int, done: Syms, text: string) {
    && Fold(prog) == AddSymbol(AddSymbol(done, sym, value), nextsym, nextvalue)
    && (nextsym != NONE <==> IsRun(sym))
    && start == Print(prog) + Bracket(sym) + Bracket(nextsym) + text
  }

  lemma PendingIs(start: string, prog: Prog, sym: Symbol, value: int, nextsym: Symbol, nextvalue: int, done: Syms, text: string)
    requires Pending(start, prog, sym, value, nextsym, nextvalue, done, text)
    ensures Fold(prog) == AddSymbol(AddSymbol(done, sym, value), nextsym, nextvalue) && (nextsym != NONE <==> IsRun(sym))
    ensures start == Print(prog) + Bracket(sym) + Bracket(nextsym) + text && (sym == LOOP ==> nextsym == NONE)
  {
  }

  /** What has been read on is pending. */
  lemma PendingNext(start: string, p: Prog, nextsym: Symbol, text: string, p': Prog, l: Lexer, done: Syms, text': string)
    requires start == Print(p) + Bracket(nextsym) + text && Print(p) + Bracket(nextsym) + text == Text(p', l) + text'
    requires Reads(l, p', done) && !l.loop
    ensures Pending(start, p', l.sym, l.value, l.nextsym, l.nextvalue, done, text') && l.sym != NONE && (IsRun(l.sym) <==> l.nextsym != NONE)
  {
  }

  lemma StartsHere(m: Module, check: bool, p: Pos, start: string)
    requires p.blk < |m|
    ensures Implements(m, check, Begin(p)) && Grows(m, p.blk, m, p.blk)
    ensures Pending(start, Empty, NONE, 0, NONE, 0, SymsOf(Begin(p)), start)
  {
    assert Print(Empty) + Bracket(NONE) + Bracket(NONE) + start == start;
  }

  lemma PendingEnds(start: string, prog: Prog, sym: Symbol, value: int, nextsym: Symbol, nextvalue: int, done: Syms, text: string)
    requires Pending(start, prog, sym, value, nextsym, nextvalue, done, text) && (sym == EOF || sym == ENDLOOP)
    ensures done == Fold(prog) && start == Print(prog) + Bracket(sym) + text
  {
    assert Print(prog) + Bracket(sym) + "" == Print(prog) + Bracket(sym);
  }

  class BrainF {
    const memtotal: nat
    const bounds: bool
    var input: string
    var blocks: Module
    var registers: nat
    var curblock: nat
    var curhead: nat

    constructor (text: string, mem: nat, bounds: bool)
      ensures input == text && memtotal == mem && this.bounds == bounds && blocks == [] && registers == 0
    {
      input, memtotal, this.bounds := text, mem, bounds;
      blocks, registers, curblock, curhead := [], 0, 0, 0;
    }

    /** The builder stands in an open block, and the head is in a register of the program's own. */
    ghost predicate Valid()
      reads this
    {
      && curblock < |blocks| && blocks[curblock].term == None
      && ARRMAX < curhead < registers
    }

    function Here(): Pos
      reads this
      requires curblock < |blocks|
    {
      Pos(curblock, |blocks[curblock].instrs|, curhead)
    }

    method FreshRegister() returns (r: nat)
      modifies `registers
      ensures r == old(registers) && registers == r + 1
    {
      r := registers;
      registers := registers + 1;
    }

    method CreateBlock(phi: Option<Phi>) returns (b: nat)
      modifies `blocks
      ensures b == |old(blocks)| && blocks == old(blocks) + [Block(phi, [], None)]
    {
      b := |blocks|;
      blocks := blocks + [Block(phi, [], None)];
    }

    method Insert(i: Instr)
      requires curblock < |blocks|
      modifies `blocks
      ensures blocks == Appended(old(blocks), curblock, i)
    {
      blocks := Appended(blocks, curblock, i);
    }

    method CreateTerminator(t: Terminator)
      requires curblock < |blocks|
      modifies `blocks
      ensures blocks == Terminated(old(blocks), curblock, t)
    {
      blocks := Terminated(blocks, curblock, t);
    }

    // ----- writing out one symbol -----

    /** The code so far ends where the builder stands. */
    ghost predicate Built(code: Code)
      reads this
    {
      Valid() && Implements(blocks, bounds, code) && code.at == Here()
    }

    method EmitRead(ghost code: Code) returns (ghost code': Code)
      requires Built(code)
      modifies `blocks, `registers
      ensures Built(code') && Entry(code') == Entry(code) && SymsOf(code') == Add(SymsOf(code), ReadSym)
      ensures Grows(old(blocks), curblock, blocks, curblock) && registers >= old(registers)
    {
      var t0 := FreshRegister();
      Insert(GetChar(t0));
      var t1 := FreshRegister();
      Insert(Trunc8(t1, t0));
      Insert(Store(t1, curhead));
      ThreeGrow(old(blocks), curblock, curhead, GetChar(t0), Trunc8(t1, t0), Store(t1, curhead));
      ImplementsGrows(old(blocks), blocks, bounds, code);
      code' := More(code, IRead(t0, t1), Here());
    }

    method EmitWrite(ghost code: Code) returns (ghost code': Code)
      requires Built(code)
      modifies `blocks, `registers
      ensures Built(code') && Entry(code') == Entry(code) && SymsOf(code') == Add(SymsOf(code), WriteSym)
      ensures Grows(old(blocks), curblock, blocks, curblock) && registers >= old(registers)
    {
      var t0 := FreshRegister();
      Insert(Load(t0, curhead));
      var t1 := FreshRegister();
      Insert(SExt(t1, t0));
      Insert(PutChar(t1));
      ThreeGrow(old(blocks), curblock, curhead, Load(t0, curhead), SExt(t1, t0), PutChar(t1));
      ImplementsGrows(old(blocks), blocks, bounds, code);
      code' := More(code, IWrite(t0, t1), Here());
    }

    method EmitChange(k: int, ghost code: Code) returns (ghost code': Code)
      requires Built(code)
      modifies `blocks, `registers
      ensures Built(code') && Entry(code') == Entry(code) && SymsOf(code') == Add(SymsOf(code), ChangeSym(k))
      ensures Grows(old(blocks), curblock, blocks, curblock) && registers >= old(registers)
    {
      var t0 := FreshRegister();
      Insert(Load(t0, curhead));
      var t1 := FreshRegister();
      Insert(Add8(t1, t0, Wrap(k)));
      Insert(Store(t1, curhead));
      ThreeGrow(old(blocks), curblock, curhead, Load(t0, curhead), Add8(t1, t0, Wrap(k)), Store(t1, curhead));
      ImplementsGrows(old(blocks), blocks, bounds, code);
      code' := More(code, IChange(k, t0, t1), Here());
    }

    method EmitMove(k: int, ghost code: Code) returns (ghost code': Code)
      requires Built(code)
      modifies `blocks, `registers, `curblock, `curhead
      ensures Built(code') && Entry(code') == Entry(code) && SymsOf(code') == Add(SymsOf(code), MoveSym(k))
      ensures Grows(old(blocks), old(curblock), blocks, curblock) && registers >= old(registers)
    {
      ghost var m0, p := blocks, Here();
      var h := FreshRegister();
      Insert(Gep(h, curhead, k));
      ghost var inst := IMove(k, h, 0, 0, 0, 0);
      curhead := h;
      if bounds {
        var c0 := FreshRegister();
        Insert(ICmpUGE(c0, curhead, ARRMAX));
        var c1 := FreshRegister();
        Insert(ICmpULT(c1, curhead, ARR));
        var c2 := FreshRegister();
        Insert(Or(c2, c0, c1));
        var nextbb := CreateBlock(None);
        CreateTerminator(CondBr(c2, ABERROR, nextbb));
        curblock := nextbb;
        inst := IMove(k, h, c0, c1, c2, nextbb);
      }
      MoveBuilt(m0, bounds, code, inst, blocks, Here());
      code' := More(code, inst, Here());
    }

    /** Branches to a new test block, whose phi is finished at the loop's end, and goes on in a new body block. */
    method OpenLoop() returns (phi: nat, test: nat)
      requires Valid()
      modifies `blocks, `registers, `curblock, `curhead
      ensures Valid() && curhead == phi && curblock == test + 1 && test == |old(blocks)| && phi >= old(registers)
      ensures registers >= old(registers)
      ensures blocks == Terminated(old(blocks), old(curblock), Br(test))
        + [Block(Some(Phi(phi, [(old(curblock), old(curhead))])), [], None), NEWBLOCK]
    {
      test := CreateBlock(None);
      CreateTerminator(Br(test));
      var bb0 := curblock;
      curblock := CreateBlock(None);
      phi := FreshRegister();
      blocks := blocks[test := Block(Some(Phi(phi, [(bb0, curhead)])), [], None)];
      curhead := phi;
    }

    /** Finishes the test block of a loop and goes on in a new block behind the loop. */
    method CloseLoop(phi: nat, oldbb: nat, testbb: nat) returns (ghost t0: nat, ghost c: nat)
      requires Valid() && OpenTest(blocks, testbb, phi) && testbb != curblock && ARRMAX < phi < registers
      modifies `blocks, `registers, `curblock, `curhead
      ensures Valid() && registers >= old(registers) && curblock == |old(blocks)| && Here().idx == 0
      ensures ClosedTest(old(blocks), blocks, testbb, phi, oldbb, old(Here()), t0, c, curblock, curhead)
      ensures Extends(old(blocks), blocks)
      ensures forall i :: 0 <= i < |old(blocks)| && i != testbb && i != old(curblock) ==> blocks[i] == old(blocks)[i]
    {
      CreateTerminator(Br(testbb));
      var incoming := blocks[testbb].phi.value.incoming + [(curblock, curhead)];
      var tape0 := FreshRegister();
      var test0 := FreshRegister();
      var bb0 := CreateBlock(None);
      blocks := blocks[testbb := Block(Some(Phi(phi, incoming)), [Load(tape0, phi), ICmpEQ0(test0, tape0)],
                                       Some(CondBr(test0, bb0, oldbb)))];
      curblock := bb0;
      curhead := FreshRegister();
      blocks := blocks[bb0 := Block(Some(Phi(curhead, [(testbb, phi)])), [], None)];
      t0, c := tape0, test0;
    }

    // ----- reading -----

    /** Reads on from a pending symbol until it is complete; a run also needs the symbol after it. */
    method ReadSymbol(cursym: Symbol, curvalue: int, ghost prog: Prog, ghost done: Syms)
      returns (l: Lexer, ghost prog': Prog)
      requires Fold(prog) == AddSymbol(done, cursym, curvalue)
      requires cursym == NONE ==> !EndsInRun(done)
      modifies `input
      ensures Reads(l, prog', done) && !l.loop
      ensures Print(prog) + Bracket(cursym) + Strip(old(input)) == Text(prog', l) + Strip(input)
      ensures |input| <= |old(input)|
      ensures (cursym == NONE && l.sym != EOF) || (IsRun(cursym) && l.nextsym != EOF) ==> |input| < |old(input)|
      ensures l.nextsym == EOF || (l.sym == EOF && cursym == NONE) ==> input == []
      ensures cursym != NONE ==> l.sym == cursym
    {
      l := Lexer(cursym, curvalue, NONE, 0, cursym == NONE || IsRun(cursym));
      prog' := prog;
      hide Fold;
      while l.loop
        invariant Reads(l, prog', done)
        invariant Print(prog) + Bracket(cursym) + Strip(old(input)) == Text(prog', l) + Strip(input)
        invariant |input| <= |old(input)|
        invariant (l.sym != cursym && l.sym != EOF) || (l.nextsym != NONE && l.nextsym != EOF) ==> |input| < |old(input)|
        invariant l.nextsym == EOF || (l.sym == EOF && cursym == NONE) ==> input == []
        invariant cursym != NONE ==> l.sym == cursym
        decreases |input|, l.loop
      {
        if input == "" {
          l := AtEof(l);
        } else {
          var c := input[0];
          FeedReads(l, prog', done, c);
          FeedText(l, prog', input);
          input := input[1..];
          prog' := Extended(prog', c);
          l := Feed(l, c);
        }
      }
    }

    // ----- the main loop -----

    /** Decreases at each round of the main loop in which nothing is read. */
    ghost function Weight(cursym: Symbol, nextsym: Symbol): nat {
      if cursym == EOF || cursym == ENDLOOP then 0 else if nextsym == NONE then 1 else if nextsym == EOF then 2 else 3
    }

    /** Compiles up to the end of the text or, inside a loop, up to the bracket that closes it. */
    method ReadLoop(phi: Option<nat>, oldbb: nat, testbb: nat, ghost depth: nat)
      returns (r: Brackets, ghost prog: Prog, ghost code: Code, ghost t0: nat, ghost c: nat)
      requires Valid() && ENDBB < |blocks| && (phi.Some? <==> depth > 0)
      requires phi.Some? ==>
        OpenTest(blocks, testbb, phi.value) && testbb != curblock && ARRMAX < phi.value < registers
      modifies `input, `blocks, `registers, `curblock, `curhead
      ensures r != Balanced ==> Scan(Strip(old(input)), depth) == r
      ensures r == Balanced ==>
        (&& |input| <= |old(input)|
         && Implements(blocks, bounds, code) && Entry(code) == old(Here()) && SymsOf(code) == Fold(prog)
         && (code.at.blk == old(curblock) || code.at.blk >= |old(blocks)|)
         && Extends(old(blocks), blocks))
      ensures r == Balanced && phi.None? ==>
        Strip(old(input)) == Print(prog) && EndsAt(blocks, code.at.blk, code.at.idx, Br(ENDBB))
      ensures r == Balanced && phi.Some? ==>
        (&& Valid() && registers >= old(registers)
         && Strip(old(input)) == Print(prog) + "]" + Strip(input)
         && ClosedTest(old(blocks), blocks, testbb, phi.value, oldbb, code.at, t0, c, curblock, curhead)
         && curblock >= |old(blocks)| && Here().idx == 0
         && forall i :: 0 <= i < |old(blocks)| && i != testbb && i != old(curblock) ==> blocks[i] == old(blocks)[i])
      decreases |input|, 4
    {
      hide Implements, Grows, Scan, Print, Extends, OpenTest, ClosedTest, EndsAt;
      t0, c := 0, 0;
      var cursym;
      r, cursym, prog, code := ReadCommands(depth);
      if r != Balanced { return; }
      ScanEnd(Strip(old(input)), prog, cursym, Strip(input), depth);
      ghost var m1, b1 := blocks, curblock;
      GrowsIs(old(blocks), old(curblock), m1, b1);
      if phi.Some? { StaysOpen(old(blocks), old(curblock), m1, b1, testbb, phi.value); }
      if cursym == ENDLOOP {
        if phi.None? { r := ExtraBracket; return; }
        t0, c := CloseLoop(phi.value, oldbb, testbb);
        ClosedSince(old(blocks), m1, blocks, testbb, phi.value, oldbb, code.at, t0, c, curblock, curhead);
      } else {
        TerminatedExtends(blocks, curblock, Br(ENDBB));
        CreateTerminator(Br(ENDBB));
        if phi.Some? { r := MissingBracket; return; }
      }
      ExtendsTransitive(old(blocks), m1, blocks);
      ImplementsGrows(m1, blocks, bounds, code);
    }

    /** The main loop itself: compiles everything before the symbol it stops at. */
    method ReadCommands(ghost depth: nat) returns (r: Brackets, cursym: Symbol, ghost prog: Prog, ghost code: Code)
      requires Valid() && ENDBB < |blocks|
      modifies `input, `blocks, `registers, `curblock, `curhead
      ensures r != Balanced ==> Scan(Strip(old(input)), depth) == r
      ensures r == Balanced ==>
        (&& (cursym == ENDLOOP || (cursym == EOF && input == "")) && |input| <= |old(input)|
         && Built(code) && Entry(code) == old(Here()) && SymsOf(code) == Fold(prog)
         && registers >= old(registers) && Grows(old(blocks), old(curblock), blocks, curblock)
         && Strip(old(input)) == Print(prog) + Bracket(cursym) + Strip(input))
      decreases |input|, 3
    {
      var curvalue, nextsym, nextvalue := 0, NONE, 0;
      cursym, prog, code, r := NONE, Empty, Begin(Here()), Balanced;
      ghost var start := Strip(input);
      StartsHere(blocks, bounds, Here(), start);
      hide Scan, Strip, Implements, Grows, Pending;
      while cursym != EOF && cursym != ENDLOOP
        invariant Built(code) && Entry(code) == old(Here()) && registers >= old(registers)
        invariant Grows(old(blocks), old(curblock), blocks, curblock) && r == Balanced && |input| <= |old(input)|
        invariant Pending(start, prog, cursym, curvalue, nextsym, nextvalue, SymsOf(code), Strip(input))
        invariant cursym == NONE ==> code.Begin?
        invariant cursym == LOOP || nextsym == LOOP ==> |input| < |old(input)|
        invariant cursym == EOF || nextsym == EOF ==> input == []
        decreases |input|, Weight(cursym, nextsym)
      {
        ghost var m1, b1 := blocks, curblock;
        r, cursym, curvalue, nextsym, nextvalue, prog, code :=
          NextSymbol(cursym, curvalue, nextsym, nextvalue, depth, start, prog, code);
        if r != Balanced { return; }
        GrowsTransitive(old(blocks), old(curblock), m1, b1, blocks, curblock);
      }
      PendingEnds(start, prog, cursym, curvalue, nextsym, nextvalue, SymsOf(code), Strip(input));
    }

    /** Writes out the current symbol, and reads on from the next one. */
    method NextSymbol(cursym0: Symbol, curvalue0: int, nextsym0: Symbol, nextvalue0: int, ghost depth: nat, ghost start: string,
                      ghost prog0: Prog, ghost code0: Code)
      returns (r: Brackets, cursym: Symbol, curvalue: int, nextsym: Symbol, nextvalue: int, ghost prog: Prog, ghost code: Code)
      requires Built(code0) && ENDBB < |blocks| && cursym0 != EOF && cursym0 != ENDLOOP
      requires Pending(start, prog0, cursym0, curvalue0, nextsym0, nextvalue0, SymsOf(code0), Strip(input))
      requires cursym0 == NONE ==> code0.Begin?
      requires nextsym0 == EOF ==> input == []
      modifies `input, `blocks, `registers, `curblock, `curhead
      ensures r != Balanced ==> cursym0 == LOOP && Scan(start, depth) == r
      ensures r == Balanced ==>
        (&& Built(code) && Entry(code) == Entry(code0) && registers >= old(registers)
         && Grows(old(blocks), old(curblock), blocks, curblock) && cursym != NONE
         && Pending(start, prog, cursym, curvalue, nextsym, nextvalue, SymsOf(code), Strip(input))
         && (cursym == EOF || nextsym == EOF ==> input == []) && |input| <= |old(input)|)
      ensures r == Balanced && (cursym == LOOP || nextsym == LOOP) && nextsym0 != LOOP ==> |input| < |old(input)|
      ensures r == Balanced ==> |input| < |old(input)| || Weight(cursym, nextsym) < Weight(cursym0, nextsym0)
      decreases |input|, if cursym0 == LOOP then 7 else 1
    {
      hide Scan, Strip, Implements, Grows, Pending, AddSymbol, Fold, Print, Bracket, EndsInRun, Reads, Text;
      cursym, curvalue, nextsym, nextvalue := cursym0, curvalue0, nextsym0, nextvalue0;
      ghost var text := Strip(input);
      PendingIs(start, prog0, cursym, curvalue, nextsym, nextvalue, SymsOf(code0), text);
      r, prog, code := EmitSymbol(cursym, curvalue, nextsym, nextvalue, depth, prog0, code0);
      TextMoves(start, prog0, cursym, nextsym, text, prog, Strip(input));
      if r != Balanced { return; }
      ghost var prog1, text1 := prog, Strip(input);
      var l;
      l, prog := ReadSymbol(nextsym, nextvalue, prog, SymsOf(code));
      PendingNext(start, prog1, nextsym, text1, prog, l, SymsOf(code), Strip(input));
      cursym, curvalue, nextsym, nextvalue := l.sym, l.value, l.nextsym, l.nextvalue;
    }

    /** Writes out one symbol. */
    method EmitSymbol(cursym: Symbol, curvalue: int, ghost nextsym: Symbol, ghost nextvalue: int,
                      ghost depth: nat, ghost prog: Prog, ghost code: Code)
      returns (r: Brackets, ghost prog': Prog, ghost code': Code)
      requires Built(code) && ENDBB < |blocks| && cursym != EOF && cursym != ENDLOOP
      requires Fold(prog) == AddSymbol(AddSymbol(SymsOf(code), cursym, curvalue), nextsym, nextvalue)
      requires (nextsym != NONE <==> IsRun(cursym)) && (cursym == NONE ==> code.Begin?)
      modifies `input, `blocks, `registers, `curblock, `curhead
      ensures r != Balanced ==> cursym == LOOP && Scan(Print(prog) + "[" + Strip(old(input)), depth) == r
      ensures r == Balanced ==>
        (&& Built(code') && Entry(code') == Entry(code) && registers >= old(registers)
         && Grows(old(blocks), old(curblock), blocks, curblock)
         && Fold(prog') == AddSymbol(SymsOf(code'), nextsym, nextvalue)
         && (nextsym == NONE ==> !EndsInRun(SymsOf(code')))
         && Print(prog) + Bracket(cursym) + Strip(old(input)) == Print(prog') + Strip(input)
         && |input| <= |old(input)| && (cursym != LOOP ==> prog' == prog && input == old(input)))
      decreases |input|, if cursym == LOOP then 6 else 0
    {
      r, prog', code' := Balanced, prog, code;
      match cursym {
        case NONE =>
        case READ => code' := EmitRead(code);
        case WRITE => code' := EmitWrite(code);
        case MOVE => code' := EmitMove(curvalue, code);
        case CHANGE => code' := EmitChange(curvalue, code);
        case LOOP => r, prog', code' := EmitLoop(depth, prog, code);
        case _ => assert false;
      }
    }

    method EmitLoop(ghost depth: nat, ghost prog: Prog, ghost code: Code)
      returns (r: Brackets, ghost prog': Prog, ghost code': Code)
      requires Built(code) && ENDBB < |blocks|
      modifies `input, `blocks, `registers, `curblock, `curhead
      ensures r != Balanced ==> Scan(Print(prog) + "[" + Strip(old(input)), depth) == r
      ensures r == Balanced ==>
        (&& Built(code') && Entry(code') == Entry(code) && registers >= old(registers)
         && prog'.Then? && prog'.init == prog && prog'.last.Loop?
         && SymsOf(code') == Add(SymsOf(code), LoopSym(Fold(prog'.last.body)))
         && Grows(old(blocks), old(curblock), blocks, curblock)
         && Print(prog) + "[" + Strip(old(input)) == Print(prog') + Strip(input) && |input| <= |old(input)|)
      decreases |input|, 5
    {
      ghost var m0 := blocks;
      var phi, test := OpenLoop();
      ghost var m1 := blocks;
      assert OpenTest(blocks, test, phi);
      hide Implements, Scan, Strip, OpenTest, ClosedTest, Grows, Print;
      ghost var body, bodycode, t0, c;
      r, body, bodycode, t0, c := ReadLoop(Some(phi), curblock, test, depth + 1);
      prog', code' := Then(prog, Loop(body)), code;
      if r == Balanced {
        LoopBuilt(m0, m1, blocks, bounds, code, bodycode, test, phi, t0, c, curblock, curhead);
        code' := More(code, ILoop(bodycode, test, phi, t0, c, curhead), Here());
        LoopText(prog, body, Strip(old(input)), Strip(input));
      } else {
        OpenText(prog, Strip(old(input)), depth);
      }
    }

    // ----- the whole function -----

    /** The function header: the tape, the head in its middle, and the blocks the program ends in. */
    method Header()
      requires blocks == [] && registers == 0
      modifies `blocks, `registers, `curblock, `curhead
      ensures Valid() && ENDBB < |blocks| && HasEnding(blocks, bounds) && curblock == 0
      ensures blocks[0] == Block(None, HeaderCode(memtotal, bounds, curhead), None)
    {
      curblock := CreateBlock(None);
      var arr := FreshRegister();
      var arrmax := FreshRegister();
      Insert(Malloc(arr, memtotal));
      Insert(Memset(arr, memtotal));
      if bounds {
        Insert(Gep(arrmax, arr, memtotal));
      }
      curhead := FreshRegister();
      Insert(Gep(curhead, arr, memtotal / 2));
      var endbb := CreateBlock(None);
      blocks := blocks[endbb := Block(None, [Free(arr)], Some(Ret))];
      if bounds {
        var aberrorbb := CreateBlock(None);
        blocks := blocks[aberrorbb := Block(None, [Puts], Some(Br(endbb)))];
      }
    }
  }

  function HeaderCode(mem: nat, bounds: bool, head: nat): seq<Instr> {
    [Malloc(ARR, mem), Memset(ARR, mem)] + (if bounds then [Gep(ARRMAX, ARR, mem)] else [])
      + [Gep(head, ARR, mem / 2)]
  }

  /** The module runs the header and then code for the program, and ends. */
  ghost predicate Compiles(m: Module, mem: nat, bounds: bool, prog: Prog, code: Code) {
    && HasEnding(m, bounds)
    && Implements(m, bounds, code) && SymsOf(code) == Fold(prog)
    && Entry(code) == Pos(0, |HeaderCode(mem, bounds, Entry(code).head)|, Entry(code).head)
    && CodeAt(m, Pos(0, 0, 0), HeaderCode(mem, bounds, Entry(code).head)) && Entry(code).head > ARRMAX
    && EndsAt(m, code.at.blk, code.at.idx, Br(ENDBB))
  }

  /** Compiles a text exactly when its brackets balance; the module implements the program the text prints. */
  method Compile(text: string, mem: nat, bounds: bool) returns (r: Brackets, m: Module, ghost prog: Prog, ghost code: Code)
    ensures r == Scan(Strip(text), 0)
    ensures r == Balanced ==> Strip(text) == Print(prog) && Compiles(m, mem, bounds, prog, code)
  {
    var c := new BrainF(text, mem, bounds);
    c.Header();
    ghost var m0 := c.blocks;
    ghost var t0, t1;
    r, prog, code, t0, t1 := c.ReadLoop(None, 0, 0, 0);
    m := c.blocks;
    if r == Balanced {
      ScanPrint(prog, "", 0);
      assert Print(prog) + "" == Print(prog);
      assert forall b :: 0 <= b < |m0| ==> BlockExtends(m0[b], m[b]);
    }
  }
}
