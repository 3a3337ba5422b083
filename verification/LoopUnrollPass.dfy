/** The unrolling pass as a whole: clone, rename and rewire in place, to exactly the unrolled loop. */
module LoopUnrollPass {
  import opened LoopProgram
  import opened LoopUnrolling
  import opened LoopUnroller

  function Done(order: seq<Label>, k: nat): set<Label>
    requires k <= |order|
  {
    set j | 0 <= j < k :: order[j]
  }

  /** All blocks, the header first, each behind those that set what it passes to an exit. */
  ghost predicate ReversePostorder(l: Loop, order: seq<Label>) {
    && Done(order, |order|) == l.code.blocks.Keys && |order| > 0 && order[0] == l.header
    && (forall i, j :: 0 <= i < j < |order| ==> order[i] != order[j])
    && forall k :: 0 <= k < |order| ==> Ready(l, Done(order, k + 1), order[k])
  }

  lemma DoneNext(order: seq<Label>, k: nat)
    requires k < |order| && forall i, j :: 0 <= i < j < |order| ==> order[i] != order[j]
    ensures Done(order, k + 1) == Done(order, k) + {order[k]} && order[k] !in Done(order, k) && order[k] in Done(order, |order|)
  {
  }

  lemma DoneNone(order: seq<Label>)
    ensures Done(order, 0) == {}
  {
  }

  lemma HeaderFirst(l: Loop, order: seq<Label>, k: nat)
    requires ReversePostorder(l, order) && k < |order|
    ensures order[k] in l.code.blocks && (order[k] == l.header ==> Done(order, k) == {}) && Ready(l, Done(order, k + 1), order[k])
    ensures Done(order, |order|) == l.code.blocks.Keys
  {
    DoneNext(order, k);
  }

  lemma NewestNext(l: Loop, it: nat, values: map<Reg, Val>, labels: map<Label, Label>)
    requires Valid(l) && it > 0 && Newest(l, l.code.blocks.Keys, it, values, labels)
    ensures Newest(l, {}, it + 1, values, labels)
  {
    hide Valid, Renamed;
    forall r: Reg ensures SetAmong(l, l.code.blocks.Keys, r) == InLoop(l, r) && !SetAmong(l, {}, r) {}
  }

  lemma ExitsNext(l: Loop, it: nat)
    requires Valid(l)
    ensures ExitsAt(l, it, l.code.blocks.Keys) == ExitsAt(l, it + 1, {})
  {
    forall e, r | e in l.code.exits && r in l.code.exits[e]
      ensures EdgesAt(l, it, l.code.blocks.Keys, l.code.exits[e][r]) == EdgesAt(l, it + 1, {}, l.code.exits[e][r])
    {
      EdgesNext(l, it, e, r);
    }
    hide Valid, EdgesAt, Renamed;
    SameExits(ExitsAt(l, it, l.code.blocks.Keys), ExitsAt(l, it + 1, {}));
  }

  lemma EdgesNext(l: Loop, it: nat, e: Label, r: Reg)
    requires Valid(l) && e in l.code.exits && r in l.code.exits[e]
    ensures EdgesAt(l, it, l.code.blocks.Keys, l.code.exits[e][r]) == EdgesAt(l, it + 1, {}, l.code.exits[e][r])
  {
    var edges := l.code.exits[e][r];
    ExitOriginal(l, e, r);
    EdgeAt(l, it, l.code.blocks.Keys, edges);
    EdgeAt(l, it + 1, {}, edges);
    hide Valid, EdgesAt, Renamed;
  }

  lemma ExitsStart(l: Loop)
    requires Valid(l)
    ensures ExitsAt(l, 1, {}) == l.code.exits
  {
    forall e, r | e in l.code.exits && r in l.code.exits[e]
      ensures EdgesAt(l, 1, {}, l.code.exits[e][r]) == l.code.exits[e][r]
    {
      EdgesStart(l, e, r);
    }
    hide Valid, EdgesAt, Renamed;
    SameExits(ExitsAt(l, 1, {}), l.code.exits);
  }

  lemma SameExits(x: map<Label, Phis>, y: map<Label, Phis>)
    requires x.Keys == y.Keys && forall e | e in x :: x[e].Keys == y[e].Keys
    requires forall e, r | e in x && r in x[e] :: x[e][r] == y[e][r]
    ensures x == y
  {
    forall e | e in x ensures x[e] == y[e] {}
  }

  lemma EdgesStart(l: Loop, e: Label, r: Reg)
    requires Valid(l) && e in l.code.exits && r in l.code.exits[e]
    ensures EdgesAt(l, 1, {}, l.code.exits[e][r]) == l.code.exits[e][r]
  {
    var edges := l.code.exits[e][r];
    ExitOriginal(l, e, r);
    EdgeAt(l, 1, {}, edges);
    hide Valid, EdgesAt, Renamed;
    var x := EdgesAt(l, 1, {}, edges);
    forall b | b in edges ensures b == Label(b.block, 0) && b in x && x[b] == edges[b] { Renamed0(l, edges[b]); }
    forall b | b in x ensures b in edges && edges[b] == x[b] { assert HasEdge(l, 1, {}, edges, b) && b == Label(b.block, 0); }
    SameEdges(x, edges);
  }

  // ----- rewiring -----

  /** A block once the header's phis are set and the latches before copy `i` lead on. */
  ghost predicate Wired(l: Loop, count: nat, i: nat, x: Label, b: Block)
    requires Valid(l)
  {
    && Origin(x) in l.code.blocks && x.copy < count
    && (var o := Copied(l, Origin(x), x.copy);
        && b.body == o.body && b.phis == (if x == l.header then HeaderPhis(l, count) else o.phis)
        && b.term == if Origin(x) == l.latch && x.copy < i then CopyTerm(l, count, l.latch, x.copy) else o.term)
  }

  ghost predicate Wiring(l: Loop, count: nat, i: nat, m: map<Label, Block>)
    requires Valid(l)
  {
    HasCopies(l, count, {}, m) && forall x | x in m :: Wired(l, count, i, x, m[x])
  }

  lemma InstrsZero(l: Loop, b: Label)
    requires Valid(l) && b in l.code.blocks
    ensures RenamedBody(l, 0, l.code.blocks[b].body) == l.code.blocks[b].body
  {
    BodyOriginal(l, b);
    var body := l.code.blocks[b].body;
    hide Valid, InLoop, IsPhi;
    forall i | 0 <= i < |body| ensures RenamedInstr(l, 0, body[i]) == body[i] { assert OriginalInstr(l, body[i]); }
  }

  lemma TermZero(l: Loop, b: Label)
    requires Valid(l) && b in l.code.blocks
    ensures RenamedTerm(l, 0, l.code.blocks[b].term) == l.code.blocks[b].term
  {
    AllOriginal(l);
    hide Valid;
    forall x | x in l.code.blocks ensures Label(x.block, 0) == x {}
  }

  lemma PhisZero(l: Loop, phis: Phis)
    requires Valid(l) && OriginalPhis(phis)
    ensures RenamedPhis(l, 0, phis) == phis
  {
    hide Valid;
    forall r | r in phis ensures Reg(r.name, 0) == r && RenamedEdges(l, 0, phis[r]) == phis[r] { EdgesZero(l, phis[r]); }
    hide RenamedEdges, OriginalPhis;
    var q := RenamedPhis(l, 0, phis);
    assert forall r | r in phis :: Reg(r.name, 0) in q;
  }

  lemma EdgesZero(l: Loop, edges: map<Label, Val>)
    requires Valid(l) && forall e | e in edges :: e.copy == 0
    ensures RenamedEdges(l, 0, edges) == edges
  {
    hide Valid;
    forall e | e in edges ensures Label(e.block, 0) == e && Renamed(l, 0, edges[e]) == edges[e] {}
    assert forall e | e in edges :: Label(e.block, 0) in RenamedEdges(l, 0, edges);
  }

  /** The wired blocks are those of the unrolled loop. */
  lemma WiredIsCopy(l: Loop, count: nat, x: Label, b: Block)
    requires Valid(l) && Wired(l, count, count, x, b)
    ensures b == CopyOf(l, count, Origin(x), x.copy)
  {
    HeaderOriginal(l);
    var o := Origin(x);
    if x.copy == 0 {
      InstrsZero(l, o);
      TermZero(l, o);
      BlockFacts(l, o);
      PhisZero(l, l.code.blocks[o].phis);
      assert x == o;
    }
    hide Valid, RenamedBody, RenamedTerm, RenamedPhis, HeaderPhis, Renamed;
  }

  lemma WiredIsUnrolled(l: Loop, count: nat, m: map<Label, Block>)
    requires Valid(l) && Wiring(l, count, count, m)
    ensures m == UnrolledBlocks(l, count)
  {
    hide Valid, Wired, UnrolledBlocks, Origin;
    forall x | x in m ensures x in UnrolledBlocks(l, count) && UnrolledBlocks(l, count)[x] == m[x] {
      WiredAt(l, count, x, m[x]);
    }
    forall x | x in UnrolledBlocks(l, count) ensures x in m { UnrolledKey(l, count, x); }
    SameBlocks(m, UnrolledBlocks(l, count));
  }

  lemma WiredAt(l: Loop, count: nat, x: Label, b: Block)
    requires Valid(l) && Wired(l, count, count, x, b)
    ensures x in UnrolledBlocks(l, count) && UnrolledBlocks(l, count)[x] == b
  {
    WiredIsCopy(l, count, x, b);
    UnrolledBlock(l, count, Origin(x), x.copy);
    assert x == Label(Origin(x).block, x.copy);
  }

  lemma SameBlocks(m: map<Label, Block>, u: map<Label, Block>)
    requires (forall x | x in u :: x in m) && forall x | x in m :: x in u && u[x] == m[x]
    ensures m == u
  {
  }

  lemma UnrolledKey(l: Loop, count: nat, x: Label)
    requires Valid(l)
    ensures x in UnrolledBlocks(l, count) <==> Origin(x) in l.code.blocks && x.copy < count
  {
    AllOriginal(l);
    hide Valid, CopyOf;
    assert x == Label(Origin(x).block, x.copy);
    if x in UnrolledBlocks(l, count) {
      var b, i :| b in l.code.blocks && 0 <= i < count && x == Label(b.block, i);
      assert b == Origin(x);
    }
  }

  lemma WiringStarts(l: Loop, count: nat, m: map<Label, Block>)
    requires Valid(l) && count > 0 && Stage(l, count, {}, {}, m)
    ensures l.header in m && m[l.header] == l.code.blocks[l.header]
    ensures Wiring(l, count, 0, m[l.header := m[l.header].(phis := HeaderPhis(l, count))])
  {
    HeaderOriginal(l);
    assert Origin(l.header) == l.header;
    hide Valid, Clone, HeaderPhis;
    assert l.header in m;
    assert IsStage(l, count, {}, l.header, m[l.header]);
    forall x | x in m ensures IsStage(l, count, {}, x, m[x]) && x.copy < count {}
    hide Copied, Stage;
  }

  lemma WiredOn(l: Loop, count: nat, i: nat, x: Label, b: Block)
    requires Valid(l) && l.latch in l.code.blocks && l.latch.copy == 0 && i < count && Wired(l, count, i, x, b)
    ensures Wired(l, count, i + 1, x, if x == Label(l.latch.block, i) then b.(term := CopyTerm(l, count, l.latch, i)) else b)
  {
    hide Valid, Copied, CopyTerm, HeaderPhis;
    if Origin(x) == l.latch && x.copy == i { assert x == Label(l.latch.block, i); }
  }

  lemma WiringNext(l: Loop, count: nat, i: nat, m: map<Label, Block>)
    requires Valid(l) && i < count && Wiring(l, count, i, m)
    ensures var x := Label(l.latch.block, i);
      && x in m && m[x].term == Copied(l, l.latch, i).term
      && Wiring(l, count, i + 1, m[x := m[x].(term := CopyTerm(l, count, l.latch, i))])
  {
    HeaderOriginal(l);
    var n := Label(l.latch.block, i);
    assert Origin(n) == l.latch && n in m;
    hide Valid, Copied, CopyTerm, HeaderPhis;
    assert Wired(l, count, i, n, m[n]);
    var m1 := m[n := m[n].(term := CopyTerm(l, count, l.latch, i))];
    forall x | x in m1 ensures Wired(l, count, i + 1, x, m1[x]) {
      assert Wired(l, count, i, x, m[x]);
      WiredOn(l, count, i, x, m[x]);
    }
  }

  function LatchCopies(l: Loop, i: nat): set<Label> { set j | 0 <= j < i :: Label(l.latch.block, j) }

  /** The exits' phis without the edges from the latches before copy `i`. */
  function ExitsWired(l: Loop, count: nat, i: nat): map<Label, Phis>
    requires Valid(l)
  {
    map e | e in l.code.exits :: map r | r in l.code.exits[e] :: EdgesAt(l, count, {}, l.code.exits[e][r]) - LatchCopies(l, i)
  }

  /** The phis of the blocks in `targets` without the edge from `b`. */
  function WithoutEdges(exits: map<Label, Phis>, b: Label, targets: set<Label>): map<Label, Phis> {
    map e | e in exits :: if e in targets then map r | r in exits[e] :: exits[e][r] - {b} else exits[e]
  }

  lemma EdgesLess(l: Loop, count: nat, i: nat, edges: map<Label, Val>)
    requires Valid(l) && (forall e | e in edges :: e.copy == 0)
    ensures EdgesAt(l, count, {}, edges) - LatchCopies(l, i + 1)
      == EdgesAt(l, count, {}, edges) - LatchCopies(l, i) - {Label(l.latch.block, i)}
    ensures l.latch !in edges ==>
      EdgesAt(l, count, {}, edges) - LatchCopies(l, i + 1) == EdgesAt(l, count, {}, edges) - LatchCopies(l, i)
  {
    HeaderOriginal(l);
    EdgeAt(l, count, {}, edges);
    hide Valid, Renamed, EdgesAt;
    var n := Label(l.latch.block, i);
    LatchCopiesGrow(l, i);
    MinusOne(EdgesAt(l, count, {}, edges), LatchCopies(l, i), n);
    assert Label(n.block, 0) == l.latch;
  }

  lemma LatchCopiesGrow(l: Loop, i: nat)
    ensures LatchCopies(l, i + 1) == LatchCopies(l, i) + {Label(l.latch.block, i)}
  {
  }

  lemma MinusOne(m: map<Label, Val>, s: set<Label>, n: Label)
    ensures m - (s + {n}) == m - s - {n} && (n !in m ==> m - (s + {n}) == m - s)
  {
  }

  lemma ExitsLess(l: Loop, count: nat, i: nat, targets: set<Label>)
    requires Valid(l) && ExitsExact(l) && l.latch in l.code.blocks
    requires forall e | e in l.code.exits :: e in targets <==> e in Targets(l.code.blocks[l.latch].term)
    ensures WithoutEdges(ExitsWired(l, count, i), Label(l.latch.block, i), targets) == ExitsWired(l, count, i + 1)
  {
    forall e, r | e in l.code.exits && r in l.code.exits[e]
      ensures ExitsWired(l, count, i + 1)[e][r]
        == if e in targets then ExitsWired(l, count, i)[e][r] - {Label(l.latch.block, i)} else ExitsWired(l, count, i)[e][r]
    {
      ExitLess(l, count, i, e, r);
    }
    hide Valid, EdgesAt, LatchCopies, Targets, ExitsExact;
    SameExits(WithoutEdges(ExitsWired(l, count, i), Label(l.latch.block, i), targets), ExitsWired(l, count, i + 1));
  }

  lemma ExitLess(l: Loop, count: nat, i: nat, e: Label, r: Reg)
    requires Valid(l) && ExitsExact(l) && l.latch in l.code.blocks && e in l.code.exits && r in l.code.exits[e]
    ensures ExitsWired(l, count, i + 1)[e][r] == if e in Targets(l.code.blocks[l.latch].term)
      then ExitsWired(l, count, i)[e][r] - {Label(l.latch.block, i)} else ExitsWired(l, count, i)[e][r]
  {
    ExitOriginal(l, e, r);
    EdgesLess(l, count, i, l.code.exits[e][r]);
    hide Valid, EdgesAt, LatchCopies, Targets;
  }

  lemma ExitEdgeAt(l: Loop, count: nat, edges: map<Label, Val>, n: Label)
    requires Valid(l) && count > 0 && (forall e | e in edges :: e.copy == 0)
    ensures n in ExitEdges(l, count, edges) <==> HasEdge(l, count, {}, edges, n) && !(Origin(n) == l.latch && n.copy + 1 < count)
    ensures n in ExitEdges(l, count, edges) ==> ExitEdges(l, count, edges)[n] == Renamed(l, n.copy, edges[Origin(n)])
  {
    hide Valid, Renamed;
    var x := ExitEdges(l, count, edges);
    if n in x {
      var e, it :| e in edges && 0 <= it < (if e in l.code.blocks then count else 1) && !(e == l.latch && it + 1 < count)
        && n == Label(e.block, it) && x[n] == Renamed(l, it, edges[e]);
      assert e == Origin(n);
    }
    assert n == Label(Origin(n).block, n.copy);
  }

  lemma LatchCopy(l: Loop, i: nat, n: Label)
    ensures n in LatchCopies(l, i) <==> n.block == l.latch.block && n.copy < i
  {
    assert n == Label(n.block, n.copy);
  }

  lemma ExitEdgeWired(l: Loop, count: nat, edges: map<Label, Val>, n: Label)
    requires Valid(l) && count > 0 && (forall e | e in edges :: e.copy == 0)
    ensures n in ExitEdges(l, count, edges) <==> n in EdgesAt(l, count, {}, edges) && n !in LatchCopies(l, count - 1)
    ensures n in ExitEdges(l, count, edges) ==> ExitEdges(l, count, edges)[n] == EdgesAt(l, count, {}, edges)[n]
  {
    HeaderOriginal(l);
    EdgeAt(l, count, {}, edges);
    hide Valid, Renamed, EdgesAt, ExitEdges, LatchCopies, HasEdge;
    ExitEdgeAt(l, count, edges, n);
    LatchCopy(l, count - 1, n);
  }

  lemma SameEdges(x: map<Label, Val>, y: map<Label, Val>)
    requires (forall n | n in y :: n in x) && forall n | n in x :: n in y && y[n] == x[n]
    ensures x == y
  {
  }

  lemma ExitEdgesWired(l: Loop, count: nat, edges: map<Label, Val>)
    requires Valid(l) && count > 0 && (forall e | e in edges :: e.copy == 0)
    ensures EdgesAt(l, count, {}, edges) - LatchCopies(l, count - 1) == ExitEdges(l, count, edges)
  {
    hide Valid, EdgesAt, ExitEdges, LatchCopies;
    var x, y := EdgesAt(l, count, {}, edges) - LatchCopies(l, count - 1), ExitEdges(l, count, edges);
    forall n | n in x ensures n in y && y[n] == x[n] { ExitEdgeWired(l, count, edges, n); }
    forall n | n in y ensures n in x { ExitEdgeWired(l, count, edges, n); }
    SameEdges(x, y);
  }

  lemma ExitsAreUnrolled(l: Loop, count: nat)
    requires Valid(l) && count > 0
    ensures ExitsWired(l, count, count - 1) == Unrolled(l, count).exits
  {
    forall e, r | e in l.code.exits && r in l.code.exits[e]
      ensures ExitsWired(l, count, count - 1)[e][r] == Unrolled(l, count).exits[e][r]
    {
      ExitOriginal(l, e, r);
      ExitEdgesWired(l, count, l.code.exits[e][r]);
    }
    hide Valid, EdgesAt, ExitEdges, LatchCopies;
    SameExits(ExitsWired(l, count, count - 1), Unrolled(l, count).exits);
  }

  lemma ExitsUnwired(l: Loop, count: nat)
    requires Valid(l)
    ensures ExitsAt(l, count, {}) == ExitsWired(l, count, 0)
  {
    hide Valid, EdgesAt;
    assert LatchCopies(l, 0) == {};
    SameExits(ExitsAt(l, count, {}), ExitsWired(l, count, 0));
  }

  /** The value that a header's phi takes from the last copy of the latch. */
  function Taken(l: Loop, values: map<Reg, Val>, r: Reg): Val
    requires Valid(l) && IsPhi(l, r) && forall x | InLoop(l, x) :: x in values
  {
    var v := LatchValue(l, r);
    if v.Use? && InLoop(l, v.reg) then values[v.reg] else v
  }

  lemma TakenRenamed(l: Loop, count: nat, values: map<Reg, Val>, labels: map<Label, Label>, r: Reg)
    requires Valid(l) && count > 1 && Newest(l, {}, count, values, labels) && IsPhi(l, r)
    ensures forall x | InLoop(l, x) :: x in values
    ensures Taken(l, values, r) == Renamed(l, count - 1, LatchValue(l, r))
  {
    NewestValues(l, {}, count, values, labels);
    var v := LatchValue(l, r);
    hide Valid, InLoop;
    if v.Use? && InLoop(l, v.reg) { assert !SetAmong(l, {}, v.reg); }
  }

  /** The terminator of copy `i` of the latch, rewired to `dest`: only the last one still tests. */
  function RewiredTerm(t: Term, continueOnTrue: bool, conditional: bool, dest: Label): Term
    requires t.Branch?
  {
    if !conditional then Goto(dest) else if continueOnTrue then t.(yes := dest) else t.(no := dest)
  }

  lemma RewiredIsCopyTerm(l: Loop, count: nat, i: nat)
    requires Valid(l) && i < count && count > 1
    ensures l.latch in l.code.blocks && l.code.blocks[l.latch].term.Branch? && Copied(l, l.latch, i).term.Branch?
    ensures var last := i + 1 == count;
      RewiredTerm(Copied(l, l.latch, i).term, l.code.blocks[l.latch].term.yes in l.code.blocks, last,
        if last then l.header else Label(l.header.block, i + 1)) == CopyTerm(l, count, l.latch, i)
    ensures forall e | e in l.code.exits :: e in Targets(Copied(l, l.latch, i).term) <==> e in Targets(l.code.blocks[l.latch].term)
  {
    LatchBranches(l);
    LatchExits(l);
    AllOriginal(l);
    TermZero(l, l.latch);
    hide Valid, Renamed, RenamedBody, RenamedPhis;
  }

  lemma HeaderNoExit(l: Loop, i: nat)
    requires Valid(l)
    ensures Label(l.header.block, i) !in l.code.exits && Label(l.header.block, 0) == l.header
  {
    HeaderOriginal(l);
    if Label(l.header.block, i) in l.code.exits { ExitCopy(l, Label(l.header.block, i)); }
    AllOriginal(l);
  }

  lemma ExitCopy(l: Loop, e: Label)
    requires Valid(l) && e in l.code.exits
    ensures e.copy == 0
  {
  }

  lemma LatchExits(l: Loop)
    requires Valid(l)
    ensures l.latch in l.code.blocks && l.code.blocks[l.latch].term.Branch?
    ensures var t := l.code.blocks[l.latch].term;
      && (t.yes in l.code.blocks ==> t.yes == l.header && t.no in l.code.exits)
      && (t.yes !in l.code.blocks ==> t.no == l.header && t.yes in l.code.exits)
  {
  }

  class Unroller {
    const l: Loop
    const order: seq<Label>
    var lastValues: map<Reg, Val>
    var lastBlocks: map<Label, Label>
    var blocks: map<Label, Block>
    var exits: map<Label, Phis>
    var headers: seq<Label>
    var latches: seq<Label>

    constructor (l: Loop, order: seq<Label>)
      requires Valid(l) && ReversePostorder(l, order) && ExitsExact(l)
      ensures this.l == l && this.order == order && Between(1)
    {
      this.l := l;
      this.order := order;
      lastValues, lastBlocks := map[], map[];
      blocks, exits := l.code.blocks, l.code.exits;
      headers, latches := [l.header], [l.latch];
      new;
      StageStarts(l);
      ExitsStart(l);
      HeaderOriginal(l);
    }

    /** The copies' blocks of one kind, in order. */
    static function Line(b: Label, n: nat): seq<Label> { seq(n, i requires 0 <= i < n => Label(b.block, i)) }

    /** Copies before `it` are finished, those of the blocks of `cloned` in copy `it` are cloned. */
    ghost predicate Cloning(it: nat, cloned: set<Label>)
      reads this
      requires Valid(l)
    {
      && it > 0 && Stage(l, it, cloned, {}, blocks) && Newest(l, cloned, it, lastValues, lastBlocks)
      && exits == ExitsAt(l, it, cloned)
      && headers == Line(l.header, if l.header in cloned then it + 1 else it)
      && latches == Line(l.latch, if l.latch in cloned then it + 1 else it)
    }

    ghost predicate Between(it: nat)
      reads this
      requires Valid(l)
    {
      ReversePostorder(l, order) && ExitsExact(l) && Cloning(it, {})
    }

    /** Clones a block, associates its registers with their clones, and tells the exits. */
    method CloneBlock(b: Label, it: nat, ghost done: set<Label>)
      requires Valid(l) && ExitsExact(l) && b in l.code.blocks && b !in done && (b == l.header ==> done == {})
      requires Cloning(it, done) && Ready(l, done + {b}, b)
      modifies this
      ensures Cloning(it, done + {b})
    {
      hide Valid, Stage, Newest, Clone, Associations, WithEdges, ExitsAt, Ready, ExitsExact, Targets;
      AllOriginal(l);
      NewestGrows(l, done, b, it, lastValues, lastBlocks);
      StageCloned(l, it, done, b, blocks);
      var new_ := Label(b.block, it);
      blocks := blocks[new_ := Clone(l, b, it)];
      lastValues := lastValues + Associations(l, b, it, lastValues);
      lastBlocks := lastBlocks[b := new_];
      ExitsGrow(l, it, done, b, lastValues, lastBlocks);
      exits := WithEdges(l, exits, b, it, lastValues);
      if b == l.header { headers := headers + [new_]; }
      if b == l.latch { latches := latches + [new_]; }
    }

    /** Clones all blocks for copy `it`, then renames what the clones refer to. */
    method AddCopy(it: nat)
      requires Valid(l) && Between(it)
      modifies this
      ensures Between(it + 1)
    {
      hide Valid, Stage, Newest, ExitsAt, ExitsExact, Done, Ready, RenamedBody;
      var k := 0;
      DoneNone(order);
      while k < |order|
        invariant 0 <= k <= |order| && ReversePostorder(l, order) && ExitsExact(l) && Cloning(it, Done(order, k))
      {
        DoneNext(order, k);
        HeaderFirst(l, order, k);
        CloneBlock(order[k], it, Done(order, k));
        k := k + 1;
      }
      HeaderOriginal(l);
      RenameCopy(it);
    }

    method RenameCopy(it: nat)
      requires Valid(l) && ReversePostorder(l, order) && ExitsExact(l) && Cloning(it, l.code.blocks.Keys)
      modifies this
      ensures Between(it + 1)
    {
      hide Valid, Stage, Newest, ExitsAt, ExitsExact, Done, Ready, Clone, Copied;
      HeaderOriginal(l);
      var i := 0;
      DoneNone(order);
      ghost var all, values, labels := l.code.blocks.Keys, lastValues, lastBlocks;
      while i < |order|
        invariant 0 <= i <= |order| && lastValues == values && lastBlocks == labels
        invariant exits == ExitsAt(l, it, all) && headers == Line(l.header, it + 1) && latches == Line(l.latch, it + 1)
        invariant Stage(l, it, all, Done(order, i), blocks)
      {
        DoneNext(order, i);
        StageRenamed(l, it, Done(order, i), order[i], blocks);
        var new_ := Label(order[i].block, it);
        var b := RemapBlock(l, order[i], it, lastValues, lastBlocks, blocks[new_]);
        blocks := blocks[new_ := b];
        i := i + 1;
      }
      StageNext(l, it, blocks);
      NewestNext(l, it, lastValues, lastBlocks);
      ExitsNext(l, it);
    }

    /** The header's phis take their values from the last copy. */
    method RewirePhis(count: nat)
      requires Valid(l) && count > 1 && Between(count)
      modifies this
      ensures Wiring(l, count, 0, blocks) && exits == ExitsWired(l, count, 0)
      ensures headers == Line(l.header, count) && latches == Line(l.latch, count)
    {
      hide Valid, Stage, Newest, ExitsAt, ExitsExact, Wiring, ReversePostorder;
      HeaderOriginal(l);
      WiringStarts(l, count, blocks);
      var phis := blocks[l.header].phis;
      forall r | r in phis
        ensures IsPhi(l, r) && forall x | InLoop(l, x) :: x in lastValues
        ensures Taken(l, lastValues, r) == Renamed(l, count - 1, LatchValue(l, r))
      {
        TakenRenamed(l, count, lastValues, lastBlocks, r);
      }
      var last := latches[|latches| - 1];
      phis := map r | r in phis :: phis[r] - {l.latch} + map[last := Taken(l, lastValues, r)];
      assert phis == HeaderPhis(l, count);
      blocks := blocks[l.header := blocks[l.header].(phis := phis)];
      ExitsUnwired(l, count);
    }

    /** Connects each latch to the next copy of the header, and the last one to the first. */
    method RewireLatches(count: nat)
      requires Valid(l) && ExitsExact(l) && count > 1 && Wiring(l, count, 0, blocks) && exits == ExitsWired(l, count, 0)
      requires headers == Line(l.header, count) && latches == Line(l.latch, count)
      modifies this
      ensures blocks == Unrolled(l, count).blocks && exits == Unrolled(l, count).exits
    {
      hide Valid, Wiring, ExitsWired, ExitsExact, CopyTerm, Copied, WithoutEdges, UnrolledBlocks;
      LatchExits(l);
      var continueOnTrue := l.code.blocks[l.latch].term.yes in l.code.blocks;
      var i := 0;
      while i < |latches|
        invariant 0 <= i <= |latches| == count
        invariant headers == Line(l.header, count) && latches == Line(l.latch, count)
        invariant Wiring(l, count, i, blocks) && exits == ExitsWired(l, count, if i < count then i else count - 1)
      {
        WiringNext(l, count, i, blocks);
        RewiredIsCopyTerm(l, count, i);
        HeaderNoExit(l, i);
        var term := blocks[latches[i]].term;
        var j := if i + 1 == |latches| then 0 else i + 1;
        if j != 0 {
          ExitsLess(l, count, i, Targets(term) - {headers[i]});
          exits := WithoutEdges(exits, latches[i], Targets(term) - {headers[i]});
        }
        blocks := blocks[latches[i] := blocks[latches[i]].(term := RewiredTerm(term, continueOnTrue, j == 0, headers[j]))];
        i := i + 1;
      }
      WiredIsUnrolled(l, count, blocks);
      ExitsAreUnrolled(l, count);
    }

    /** Unrolls the loop in place. */
    method Unroll(count: nat)
      requires Valid(l) && count > 2 && Between(1)
      modifies this
      ensures blocks == Unrolled(l, count).blocks && exits == Unrolled(l, count).exits
    {
      hide Valid, ReversePostorder, ExitsExact, Cloning, Wiring, Unrolled;
      var it := 1;
      while it != count
        invariant 1 <= it <= count && Between(it)
      {
        AddCopy(it);
        it := it + 1;
      }
      RewirePhis(count);
      RewireLatches(count);
    }
  }
}
