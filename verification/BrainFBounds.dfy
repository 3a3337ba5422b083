/** Bounds checks: the compiler checks the head once a run, not once a character. When does that show? */
module BrainFBounds {
  import opened BrainFSource
  import opened BrainFSymbols

  predicate IsMove(c: Cmd) { c.Left? || c.Right? }

  function Direction(c: Cmd): int { if c.Left? then -1 else 1 }

  /** The run of moves a program ends in, and the program before it. */
  function Trail(p: Prog): seq<int> {
    if p.Then? && IsMove(p.last) then Trail(p.init) + [Direction(p.last)] else []
  }

  function Before(p: Prog): Prog {
    if p.Then? && IsMove(p.last) then Before(p.init) else p
  }

  function Net(r: seq<int>): int {
    if r == [] then 0 else Net(r[..|r| - 1]) + r[|r| - 1]
  }

  /** The run, checked after every step. */
  function Steps(r: seq<int>, s: State): Outcome {
    if r == [] then Done(s) else
    var o := Steps(r[..|r| - 1], s);
    if o.Done? then Move(true, o.s, r[|r| - 1]) else o
  }

  /** The run, checked at its end. */
  function Jump(r: seq<int>, s: State): Outcome {
    if r == [] then Done(s) else Move(true, s, Net(r))
  }

  /** A run that never goes beyond its two ends. */
  predicate TightRun(r: seq<int>) {
    forall j :: 0 <= j <= |r| ==>
      (if Net(r) < 0 then Net(r) else 0) <= Net(r[..j]) <= (if Net(r) < 0 then 0 else Net(r))
  }

  ghost predicate Tight(p: Prog)
    decreases p, 1
  {
    TightRun(Trail(p)) && (BeforeSmaller(p); TightBefore(Before(p)))
  }

  ghost predicate TightBefore(q: Prog)
    decreases q, 0
  {
    q.Then? ==> Tight(q.init) && (q.last.Loop? ==> Tight(q.last.body))
  }

  lemma BeforeSmaller(p: Prog)
    ensures Before(p) == p || Before(p) < p
    ensures Before(p).Then? ==> !IsMove(Before(p).last)
  {
  }

  /** The head is on the tape, unless there is no tape. */
  predicate Sane(s: State) { s.OnTape() || s.tape == [] }

  /** The same for anyone who sees only tape, input and output when the head has left the tape. */
  predicate Same(o: Outcome, o': Outcome) {
    if o.Left? && o'.Left? then o.s.(head := 0) == o'.s.(head := 0) else o == o'
  }

  // ----- one run -----

  /** Checked step by step, a run stays on the tape when each of its prefixes does. */
  lemma {:induction false} StepsMeaning(r: seq<int>, s: State)
    ensures var o := Steps(r, s);
      if forall j :: 0 < j <= |r| ==> 0 <= s.head + Net(r[..j]) < |s.tape| then o == Done(s.(head := s.head + Net(r)))
      else o.Left? && o.s.(head := 0) == s.(head := 0)
  {
    if r != [] {
      var i := r[..|r| - 1];
      StepsMeaning(i, s);
      assert forall j :: 0 < j <= |i| ==> i[..j] == r[..j];
      assert r[..|r|] == r;
    }
  }

  /** Checking once a run is exact, on every tape, for the tight runs and no others. */
  lemma {:induction false} RunExact(r: seq<int>)
    ensures TightRun(r) <==> forall s :: Sane(s) ==> Same(Jump(r, s), Steps(r, s))
  {
    if TightRun(r) {
      forall s | Sane(s) ensures Same(Jump(r, s), Steps(r, s)) { TightSteps(r, s); }
    } else {
      var j :| 0 <= j <= |r| && !((if Net(r) < 0 then Net(r) else 0) <= Net(r[..j]) <= (if Net(r) < 0 then 0 else Net(r)));
      var width := if Net(r) < 0 then 1 - Net(r) else 1 + Net(r);
      var s := State(seq(width, _ => 0), if Net(r) < 0 then -Net(r) else 0, [], []);
      StepsMeaning(r, s);
      assert r[..0] == [];
      assert Sane(s) && !Same(Jump(r, s), Steps(r, s));
    }
  }

  lemma TightSteps(r: seq<int>, s: State)
    requires TightRun(r) && Sane(s)
    ensures Same(Jump(r, s), Steps(r, s))
  {
    StepsMeaning(r, s);
    assert r[..|r|] == r;
  }

  lemma SafeSteps(r: seq<int>, s: State)
    requires !Steps(r, s).Left?
    ensures Jump(r, s) == Steps(r, s)
  {
    StepsMeaning(r, s);
    assert r[..|r|] == r;
  }

  // ----- programs -----

  lemma {:induction false} EvalTrail(p: Prog, s: State, fuel: nat)
    ensures Eval(true, p, s, fuel) == (
      var o := Eval(true, Before(p), s, fuel); if o.Done? then Steps(Trail(p), o.s) else o)
  {
    if p.Then? && IsMove(p.last) {
      EvalTrail(p.init, s, fuel);
      assert Trail(p)[..|Trail(p)| - 1] == Trail(p.init);
    }
  }

  lemma {:induction false} FoldTrail(p: Prog)
    ensures Trail(p) == [] ==> Before(p) == p
    ensures Trail(p) != [] ==> Fold(p) == Add(Fold(Before(p)), MoveSym(Net(Trail(p))))
  {
    if p.Then? && IsMove(p.last) {
      var r, k := Trail(p.init), Direction(p.last);
      FoldTrail(p.init);
      NetSnoc(r, k);
      assert Fold(p) == AddMove(Fold(p.init), k);
      if r == [] {
        assert !(p.init.Then? && IsMove(p.init.last));
        NoMoveAtEnd(p.init);
      }
    }
  }

  lemma NetSnoc(r: seq<int>, k: int)
    ensures Net(r + [k]) == Net(r) + k
  {
    assert (r + [k])[..|r|] == r;
  }

  lemma NoMoveAtEnd(q: Prog)
    requires q.Then? ==> !IsMove(q.last)
    ensures Fold(q).Add? ==> !Fold(q).last.MoveSym?
  {
  }

  /** What the compiled program's checks see is what a check after every character sees, if the text's runs
      are tight; and in any case if the latter sees the head stay on the tape. */
  lemma {:induction false} BoundsAgree(p: Prog, s: State, fuel: nat)
    requires Sane(s)
    requires Tight(p) || !Eval(true, p, s, fuel).Left?
    ensures Same(EvalSyms(true, Fold(p), s, fuel), Eval(true, p, s, fuel))
    ensures Eval(true, p, s, fuel).Done? ==> Sane(Eval(true, p, s, fuel).s)
    decreases fuel, p, 1
  {
    var q, r := Before(p), Trail(p);
    BeforeSmaller(p);
    EvalTrail(p, s, fuel);
    BoundsBefore(q, s, fuel);
    FoldTrail(p);
    var o := Eval(true, q, s, fuel);
    if o.Done? {
      StepsMeaning(r, o.s);
      assert r[..|r|] == r;
      assert Same(Jump(r, o.s), Steps(r, o.s)) by {
        if Tight(p) { TightSteps(r, o.s); } else { SafeSteps(r, o.s); }
      }
    }
  }

  lemma {:induction false} BoundsBefore(q: Prog, s: State, fuel: nat)
    requires Sane(s) && (q.Then? ==> !IsMove(q.last))
    requires TightBefore(q) || !Eval(true, q, s, fuel).Left?
    ensures Same(EvalSyms(true, Fold(q), s, fuel), Eval(true, q, s, fuel))
    ensures Eval(true, q, s, fuel).Done? ==> Sane(Eval(true, q, s, fuel).s)
    decreases fuel, q, 0
  {
    if q.Then? {
      BoundsAgree(q.init, s, fuel);
      var o := Eval(true, q.init, s, fuel);
      if q.last.Inc? || q.last.Dec? { FoldedChange(q, s, fuel); }
      if o.Done? && q.last.Loop? { BoundsLoop(q.last.body, o.s, fuel); }
    }
  }

  lemma FoldedChange(q: Prog, s: State, fuel: nat)
    requires q.Then? && (q.last.Inc? || q.last.Dec?)
    ensures EvalSyms(true, Fold(q), s, fuel) == (
      var o := EvalSyms(true, Fold(q.init), s, fuel);
      if o.Done? then Change(o.s, if q.last.Inc? then 1 else -1) else o)
  {
    var f := Fold(q.init);
    if f.Add? && f.last.ChangeSym? {
      var m := EvalSyms(true, f.init, s, fuel);
      if m.Done? { ChangeTwice(m.s, f.last.k, if q.last.Inc? then 1 else -1); }
    }
  }

  lemma {:induction false} BoundsLoop(body: Prog, s: State, fuel: nat)
    requires Sane(s)
    requires Tight(body) || !EvalCmd(true, Loop(body), s, fuel).Left?
    ensures Same(EvalSym(true, LoopSym(Fold(body)), s, fuel), EvalCmd(true, Loop(body), s, fuel))
    ensures EvalCmd(true, Loop(body), s, fuel).Done? ==> Sane(EvalCmd(true, Loop(body), s, fuel).s)
    decreases fuel, body, 2
  {
    if s.OnTape() && s.tape[s.head] != 0 && fuel > 0 {
      BoundsAgree(body, s, fuel - 1);
      var o := Eval(true, body, s, fuel - 1);
      if o.Done? { BoundsLoop(body, o.s, fuel - 1); }
    }
  }

  /** A run that is not tight: on a tape of one cell the text `<>` leaves the tape, which the compiled program misses. */
  lemma BoundsDiffer()
    ensures var p := Then(Then(Empty, Cmd.Left), Right);
      var s := State([0], 0, [], []);
      !Tight(p) && Eval(true, p, s, 0).Left? && EvalSyms(true, Fold(p), s, 0) == Done(s)
  {
    NotTight();
    LeavesTape();
  }

  lemma NotTight()
    ensures !Tight(Then(Then(Empty, Cmd.Left), Right))
  {
    var p := Then(Then(Empty, Cmd.Left), Right);
    var r: seq<int> := [];
    NetSnoc(r, -1);
    NetSnoc(r + [-1], 1);
    assert Trail(p) == r + [-1] + [1];
    assert Trail(p)[..1] == r + [-1];
  }

  lemma LeavesTape()
    ensures var p := Then(Then(Empty, Cmd.Left), Right);
      var s := State([0], 0, [], []);
      Eval(true, p, s, 0).Left? && EvalSyms(true, Fold(p), s, 0) == Done(s)
  {
    hide Tight, Trail;
    var p1 := Then(Empty, Cmd.Left);
    assert Eval(true, p1, State([0], 0, [], []), 0).Left?;
  }
}
