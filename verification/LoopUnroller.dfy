/** The pass that unrolls a loop: it clones the blocks copy by copy under a running map of newest clones, then rewires phis and latches. */
module LoopUnroller {
  import opened LoopProgram
  import opened LoopUnrolling

  /** The registers a block sets. */
  function SetBy(b: Block): set<Reg> { b.phis.Keys + set i | 0 <= i < |b.body| :: b.body[i].dst }

  /** Some block of `done` sets `r`. */
  predicate SetAmong(l: Loop, done: set<Label>, r: Reg) {
    exists b :: b in done && b in l.code.blocks && Sets(l.code.blocks[b], r)
  }

  function ClonedPhis(phis: Phis, it: nat): Phis
    requires OriginalPhis(phis)
  {
    map r | r in phis :: Reg(r.name, it) := phis[r]
  }

  /** A clone as it is before its operands are renamed. */
  function Clone(l: Loop, b: Label, it: nat): Block
    requires Valid(l) && b in l.code.blocks
  {
    var o := l.code.blocks[b];
    BlockFacts(l, b);
    Block(if b == l.header then map[] else ClonedPhis(o.phis, it),
          seq(|o.body|, i requires 0 <= i < |o.body| => o.body[i].(dst := Reg(o.body[i].dst.name, it))), o.term)
  }

  /** A copy when its operands are renamed and its latch still leads back to its own header. */
  function Copied(l: Loop, b: Label, it: nat): Block
    requires Valid(l) && b in l.code.blocks
  {
    var o := l.code.blocks[b];
    BlockFacts(l, b);
    if it == 0 then o else
    Block(if b == l.header then map[] else RenamedPhis(l, it, o.phis), RenamedBody(l, it, o.body), RenamedTerm(l, it, o.term))
  }

  function Origin(x: Label): Label { Label(x.block, 0) }

  ghost predicate HasCopies(l: Loop, it: nat, cloned: set<Label>, m: map<Label, Block>) {
    forall x: Label :: x in m <==> Origin(x) in l.code.blocks && (x.copy < it || (x.copy == it && Origin(x) in cloned))
  }

  ghost predicate IsStage(l: Loop, it: nat, renamed: set<Label>, x: Label, b: Block)
    requires Valid(l)
  {
    Origin(x) in l.code.blocks
    && b == if x.copy < it || Origin(x) in renamed then Copied(l, Origin(x), x.copy) else Clone(l, Origin(x), x.copy)
  }

  /** The copies before `it`, and in copy `it` the blocks cloned so far, some of which are renamed already. */
  ghost predicate Stage(l: Loop, it: nat, cloned: set<Label>, renamed: set<Label>, m: map<Label, Block>)
    requires Valid(l)
  {
    HasCopies(l, it, cloned, m) && forall x | x in m :: IsStage(l, it, renamed, x, m[x])
  }

  /** The newest clones once the blocks of `done` are cloned for copy `it`. */
  ghost predicate Newest(l: Loop, done: set<Label>, it: nat, values: map<Reg, Val>, labels: map<Label, Label>)
    requires Valid(l) && it > 0
  {
    && (forall r :: r in values <==> InLoop(l, r) && (it > 1 || SetAmong(l, done, r)))
    && (forall r | r in values :: values[r] == Renamed(l, if SetAmong(l, done, r) then it else it - 1, Use(r)))
    && (forall b :: b in labels <==> b in l.code.blocks && (it > 1 || b in done))
    && (forall b | b in labels :: labels[b] == Label(b.block, if b in done then it else it - 1))
  }

  // ----- renaming operands -----

  function Mapped(values: map<Reg, Val>, v: Val): Val { if v.Use? && v.reg in values then values[v.reg] else v }

  function MappedLabel(labels: map<Label, Label>, b: Label): Label { if b in labels then labels[b] else b }

  lemma MappedIsRenamed(l: Loop, it: nat, values: map<Reg, Val>, labels: map<Label, Label>, v: Val)
    requires Valid(l) && it > 0 && Newest(l, l.code.blocks.Keys, it, values, labels)
    ensures Mapped(values, v) == Renamed(l, it, v)
  {
    if v.Use? && InLoop(l, v.reg) { assert SetAmong(l, l.code.blocks.Keys, v.reg); }
  }

  /** Renames the operands of an instruction one by one. */
  method RemapInstruction(l: Loop, it: nat, values: map<Reg, Val>, ghost labels: map<Label, Label>, i: Instr) returns (r: Instr)
    requires Valid(l) && it > 0 && Newest(l, l.code.blocks.Keys, it, values, labels)
    ensures r.dst == i.dst && r.op == i.op && |r.args| == |i.args|
    ensures forall a :: 0 <= a < |i.args| ==> r.args[a] == Renamed(l, it, i.args[a])
  {
    hide Valid, Newest, Renamed;
    var args, op := i.args, 0;
    while op < |args|
      invariant 0 <= op <= |args| == |i.args|
      invariant forall a :: 0 <= a < |args| ==> args[a] == if a < op then Renamed(l, it, i.args[a]) else i.args[a]
    {
      MappedIsRenamed(l, it, values, labels, args[op]);
      args := args[op := Mapped(values, args[op])];
      op := op + 1;
    }
    r := i.(args := args);
  }

  /** No two edges get one name. */
  predicate Apart(labels: map<Label, Label>, edges: map<Label, Val>) {
    forall e, f | e in edges && f in edges && e != f :: MappedLabel(labels, e) != MappedLabel(labels, f)
  }

  function MappedEdges(values: map<Reg, Val>, labels: map<Label, Label>, edges: map<Label, Val>): map<Label, Val>
    requires Apart(labels, edges)
  {
    map e | e in edges :: MappedLabel(labels, e) := Mapped(values, edges[e])
  }

  function MappedTerm(values: map<Reg, Val>, labels: map<Label, Label>, t: Term): Term {
    match t
    case Goto(dest) => Goto(MappedLabel(labels, dest))
    case Branch(cond, yes, no) => Branch(Mapped(values, cond), MappedLabel(labels, yes), MappedLabel(labels, no))
  }

  lemma MappedLabelIsRenamed(l: Loop, it: nat, values: map<Reg, Val>, labels: map<Label, Label>, b: Label)
    requires Valid(l) && it > 0 && Newest(l, l.code.blocks.Keys, it, values, labels)
    ensures MappedLabel(labels, b) == RenamedLabel(l, it, b)
  {
  }

  lemma EdgesRenamed(l: Loop, it: nat, values: map<Reg, Val>, labels: map<Label, Label>, edges: map<Label, Val>)
    requires Valid(l) && it > 0 && Newest(l, l.code.blocks.Keys, it, values, labels)
    requires forall e | e in edges :: e.copy == 0 && e in l.code.blocks
    ensures Apart(labels, edges) && MappedEdges(values, labels, edges) == RenamedEdges(l, it, edges)
  {
    hide Valid, Newest, Renamed, Mapped, MappedLabel, RenamedLabel;
    forall e | e in edges ensures MappedLabel(labels, e) == Label(e.block, it) && Mapped(values, edges[e]) == Renamed(l, it, edges[e]) {
      EdgeRenamed(l, it, values, labels, edges, e);
    }
    SameRenaming(l, it, values, labels, edges);
  }

  lemma EdgeRenamed(l: Loop, it: nat, values: map<Reg, Val>, labels: map<Label, Label>, edges: map<Label, Val>, e: Label)
    requires Valid(l) && it > 0 && Newest(l, l.code.blocks.Keys, it, values, labels) && e in edges && e in l.code.blocks
    ensures MappedLabel(labels, e) == Label(e.block, it) && Mapped(values, edges[e]) == Renamed(l, it, edges[e])
  {
    hide Valid, Newest, Renamed, Mapped, MappedLabel;
    MappedLabelIsRenamed(l, it, values, labels, e);
    MappedIsRenamed(l, it, values, labels, edges[e]);
  }

  lemma SameRenaming(l: Loop, it: nat, values: map<Reg, Val>, labels: map<Label, Label>, edges: map<Label, Val>)
    requires Valid(l) && forall e | e in edges :: e.copy == 0
    requires forall e | e in edges :: MappedLabel(labels, e) == Label(e.block, it) && Mapped(values, edges[e]) == Renamed(l, it, edges[e])
    ensures Apart(labels, edges) && MappedEdges(values, labels, edges) == RenamedEdges(l, it, edges)
  {
    hide Valid, Renamed, Mapped, MappedLabel;
    assert Apart(labels, edges);
    var x, y := MappedEdges(values, labels, edges), RenamedEdges(l, it, edges);
    forall n | n in x ensures n in y && y[n] == x[n] {
      var e :| e in edges && n == MappedLabel(labels, e) && x[n] == Mapped(values, edges[e]);
      assert n == Label(e.block, it);
    }
    forall n | n in y ensures n in x {
      var e :| e in edges && n == Label(e.block, it);
      assert n == MappedLabel(labels, e);
    }
  }

  lemma TermRenamed(l: Loop, it: nat, values: map<Reg, Val>, labels: map<Label, Label>, t: Term)
    requires Valid(l) && it > 0 && Newest(l, l.code.blocks.Keys, it, values, labels)
    ensures MappedTerm(values, labels, t) == RenamedTerm(l, it, t)
  {
    hide Valid, Newest, Renamed, RenamedLabel, Mapped, MappedLabel;
    match t {
      case Goto(dest) => MappedLabelIsRenamed(l, it, values, labels, dest);
      case Branch(cond, yes, no) =>
        MappedIsRenamed(l, it, values, labels, cond);
        MappedLabelIsRenamed(l, it, values, labels, yes);
        MappedLabelIsRenamed(l, it, values, labels, no);
    }
  }

  function MappedPhis(values: map<Reg, Val>, labels: map<Label, Label>, phis: Phis): Phis
    requires forall r | r in phis :: Apart(labels, phis[r])
  {
    map r | r in phis :: MappedEdges(values, labels, phis[r])
  }

  lemma ClonedEdges(l: Loop, it: nat, phis: Phis, values: map<Reg, Val>, labels: map<Label, Label>, k: Reg) returns (r: Reg)
    requires Valid(l) && it > 0 && Newest(l, l.code.blocks.Keys, it, values, labels)
    requires OriginalPhis(phis) && InnerPhis(l, phis) && k in ClonedPhis(phis, it)
    ensures r in phis && k == Reg(r.name, it) && ClonedPhis(phis, it)[k] == phis[r]
    ensures Apart(labels, phis[r]) && MappedEdges(values, labels, phis[r]) == RenamedEdges(l, it, phis[r])
  {
    hide Valid, Newest, IsPhi, RenamedEdges, MappedEdges, Apart;
    r :| r in phis && k == Reg(r.name, it) && ClonedPhis(phis, it)[k] == phis[r];
    EdgesRenamed(l, it, values, labels, phis[r]);
  }

  lemma InnerPhisRenamed(l: Loop, it: nat, phis: Phis, values: map<Reg, Val>, labels: map<Label, Label>)
    requires Valid(l) && it > 0 && Newest(l, l.code.blocks.Keys, it, values, labels)
    requires OriginalPhis(phis) && InnerPhis(l, phis)
    ensures forall k | k in ClonedPhis(phis, it) :: Apart(labels, ClonedPhis(phis, it)[k])
    ensures MappedPhis(values, labels, ClonedPhis(phis, it)) == RenamedPhis(l, it, phis)
  {
    hide Valid, Newest, InnerPhis, RenamedEdges, MappedEdges, Apart;
    forall k | k in ClonedPhis(phis, it)
      ensures Apart(labels, ClonedPhis(phis, it)[k]) && k in RenamedPhis(l, it, phis)
      ensures RenamedPhis(l, it, phis)[k] == MappedEdges(values, labels, ClonedPhis(phis, it)[k])
    {
      var r := ClonedEdges(l, it, phis, values, labels, k);
      assert RenamedPhis(l, it, phis)[Reg(r.name, it)] == RenamedEdges(l, it, phis[r]);
    }
  }

  lemma PhisRenamed(l: Loop, it: nat, b: Label, values: map<Reg, Val>, labels: map<Label, Label>)
    requires Valid(l) && it > 0 && Newest(l, l.code.blocks.Keys, it, values, labels) && b in l.code.blocks
    ensures forall r | r in Clone(l, b, it).phis :: Apart(labels, Clone(l, b, it).phis[r])
    ensures MappedPhis(values, labels, Clone(l, b, it).phis) == Copied(l, b, it).phis
  {
    BlockFacts(l, b);
    hide Valid, Newest, InnerPhis, OriginalPhis, RenamedBody, RenamedTerm, RenamedPhis, ClonedPhis, Apart;
    if b != l.header { InnerPhisRenamed(l, it, l.code.blocks[b].phis, values, labels); }
  }

  /** Renames everything a clone refers to. */
  method RemapBlock(l: Loop, b: Label, it: nat, values: map<Reg, Val>, labels: map<Label, Label>, x: Block) returns (r: Block)
    requires Valid(l) && it > 0 && Newest(l, l.code.blocks.Keys, it, values, labels)
    requires b in l.code.blocks && x == Clone(l, b, it)
    ensures r == Copied(l, b, it)
  {
    hide Valid, Newest, Apart, Renamed, RenamedPhis, MappedPhis, ClonedPhis;
    var body, i := x.body, 0;
    while i < |body|
      invariant 0 <= i <= |body| == |x.body|
      invariant forall k :: 0 <= k < |body| ==>
        body[k] == if k < i then RenamedInstr(l, it, l.code.blocks[b].body[k]) else x.body[k]
    {
      var instr := RemapInstruction(l, it, values, labels, body[i]);
      body := body[i := instr];
      i := i + 1;
    }
    PhisRenamed(l, it, b, values, labels);
    TermRenamed(l, it, values, labels, x.term);
    r := Block(MappedPhis(values, labels, x.phis), body, MappedTerm(values, labels, x.term));
  }

  // ----- the phis at the exits -----

  /** The exits' phis have an edge from each block of the loop that leads there, and from no other. */
  ghost predicate ExitsExact(l: Loop) {
    forall e, r, b | e in l.code.exits && r in l.code.exits[e] && b in l.code.blocks ::
      b in l.code.exits[e][r] <==> e in Targets(l.code.blocks[b].term)
  }

  /** The edges from all copies before `it` and from the blocks of `done` in it. */
  function EdgesAt(l: Loop, it: nat, done: set<Label>, edges: map<Label, Val>): map<Label, Val>
    requires Valid(l) && forall e | e in edges :: e.copy == 0
  {
    map e, i | e in edges && 0 <= i <= it && (if e in l.code.blocks then i < it || e in done else i == 0)
      :: Label(e.block, i) := Renamed(l, i, edges[e])
  }

  /** What a block's clone adds. */
  lemma EdgesGrow(l: Loop, it: nat, done: set<Label>, b: Label, edges: map<Label, Val>)
    requires Valid(l) && (forall e | e in edges :: e.copy == 0) && b in l.code.blocks && b.copy == 0 && b in edges
    ensures EdgesAt(l, it, done + {b}, edges) == EdgesAt(l, it, done, edges)[Label(b.block, it) := Renamed(l, it, edges[b])]
  {
    hide Valid, Renamed, EdgesAt;
    EdgeAt(l, it, done, edges);
    EdgeAt(l, it, done + {b}, edges);
  }

  lemma EdgesStay(l: Loop, it: nat, done: set<Label>, b: Label, edges: map<Label, Val>)
    requires Valid(l) && (forall e | e in edges :: e.copy == 0) && b.copy == 0 && b !in edges
    ensures EdgesAt(l, it, done + {b}, edges) == EdgesAt(l, it, done, edges)
  {
    hide Valid, Renamed, EdgesAt;
    EdgeAt(l, it, done, edges);
    EdgeAt(l, it, done + {b}, edges);
  }

  lemma EdgesKept(l: Loop, it: nat, done: set<Label>, b: Label, edges: map<Label, Val>)
    requires Valid(l) && it > 0 && (forall e | e in edges :: e.copy == 0) && b in l.code.blocks && b.copy == 0 && b in edges
    ensures b in EdgesAt(l, it, done, edges) && EdgesAt(l, it, done, edges)[b] == edges[b]
  {
    Renamed0(l, edges[b]);
    hide Valid, Renamed, EdgesAt;
    EdgeAt(l, it, done, edges);
    assert HasEdge(l, it, done, edges, b) && b == Label(b.block, 0);
  }

  lemma Renamed0(l: Loop, v: Val)
    requires Valid(l)
    ensures Renamed(l, 0, v) == v
  {
  }

  predicate HasEdge(l: Loop, it: nat, done: set<Label>, edges: map<Label, Val>, x: Label) {
    var e := Label(x.block, 0);
    e in edges && x.copy <= it && if e in l.code.blocks then x.copy < it || e in done else x.copy == 0
  }

  lemma EdgeAt(l: Loop, it: nat, done: set<Label>, edges: map<Label, Val>)
    requires Valid(l) && (forall e | e in edges :: e.copy == 0)
    ensures forall x: Label :: x in EdgesAt(l, it, done, edges) <==> HasEdge(l, it, done, edges, x)
    ensures forall x | x in EdgesAt(l, it, done, edges) :: EdgesAt(l, it, done, edges)[x] == Renamed(l, x.copy, edges[Label(x.block, 0)])
  {
    hide Valid, Renamed, EdgesAt, HasEdge;
    var m := EdgesAt(l, it, done, edges);
    forall x | x in m
      ensures HasEdge(l, it, done, edges, x) && Label(x.block, 0) in edges && m[x] == Renamed(l, x.copy, edges[Label(x.block, 0)])
    {
      EdgeIs(l, it, done, edges, x);
    }
    forall x: Label | HasEdge(l, it, done, edges, x) ensures x in m { EdgeIn(l, it, done, edges, x); }
  }

  lemma EdgeIs(l: Loop, it: nat, done: set<Label>, edges: map<Label, Val>, x: Label)
    requires Valid(l) && (forall e | e in edges :: e.copy == 0) && x in EdgesAt(l, it, done, edges)
    ensures HasEdge(l, it, done, edges, x) && Label(x.block, 0) in edges
    ensures EdgesAt(l, it, done, edges)[x] == Renamed(l, x.copy, edges[Label(x.block, 0)])
  {
    hide Valid, Renamed;
    var m := EdgesAt(l, it, done, edges);
    var e, i :| e in edges && 0 <= i <= it && (if e in l.code.blocks then i < it || e in done else i == 0)
      && x == Label(e.block, i) && m[x] == Renamed(l, i, edges[e]);
    assert e == Label(x.block, 0);
  }

  lemma EdgeIn(l: Loop, it: nat, done: set<Label>, edges: map<Label, Val>, x: Label)
    requires Valid(l) && (forall e | e in edges :: e.copy == 0) && HasEdge(l, it, done, edges, x)
    ensures x in EdgesAt(l, it, done, edges)
  {
    hide Valid, Renamed;
    assert x == Label(Label(x.block, 0).block, x.copy);
  }

  function ExitsAt(l: Loop, it: nat, done: set<Label>): map<Label, Phis>
    requires Valid(l)
  {
    map e | e in l.code.exits :: map r | r in l.code.exits[e] :: EdgesAt(l, it, done, l.code.exits[e][r])
  }

  /** The exits' phis with an edge from a block's clone, for the newest clone of the value that came from the block. */
  function WithEdges(l: Loop, exits: map<Label, Phis>, b: Label, it: nat, values: map<Reg, Val>): map<Label, Phis>
    requires b in l.code.blocks
    requires forall e, r | e in exits && r in exits[e] && e in Targets(l.code.blocks[b].term) :: b in exits[e][r]
  {
    map e | e in exits :: if e in Targets(l.code.blocks[b].term)
      then map r | r in exits[e] :: exits[e][r][Label(b.block, it) := Mapped(values, exits[e][r][b])]
      else exits[e]
  }

  /** What goes to an exit from block `b` is set in `done`, or outside the loop. */
  predicate Ready(l: Loop, done: set<Label>, b: Label) {
    forall e, r | e in l.code.exits && r in l.code.exits[e] && b in l.code.exits[e][r] ::
      var v := l.code.exits[e][r][b];
      v.Use? && InLoop(l, v.reg) ==> SetAmong(l, done, v.reg)
  }

  lemma ReadyValue(l: Loop, it: nat, done: set<Label>, values: map<Reg, Val>, labels: map<Label, Label>, v: Val)
    requires Valid(l) && it > 0 && Newest(l, done, it, values, labels)
    requires v.Use? && InLoop(l, v.reg) ==> SetAmong(l, done, v.reg)
    ensures Mapped(values, v) == Renamed(l, it, v)
  {
  }

  lemma ExitOriginal(l: Loop, e: Label, r: Reg)
    requires Valid(l) && e in l.code.exits && r in l.code.exits[e]
    ensures forall b | b in l.code.exits[e][r] :: b.copy == 0
  {
  }

  lemma ExitsGrow(l: Loop, it: nat, done: set<Label>, b: Label, values: map<Reg, Val>, labels: map<Label, Label>)
    requires Valid(l) && ExitsExact(l) && it > 0 && b in l.code.blocks && b.copy == 0
    requires Newest(l, done + {b}, it, values, labels) && Ready(l, done + {b}, b)
    ensures forall e, r | e in ExitsAt(l, it, done) && r in ExitsAt(l, it, done)[e] && e in Targets(l.code.blocks[b].term) ::
      b in ExitsAt(l, it, done)[e][r]
    ensures WithEdges(l, ExitsAt(l, it, done), b, it, values) == ExitsAt(l, it, done + {b})
  {
    hide Valid, Newest, SetAmong, InLoop, EdgesAt, Mapped, Renamed, Targets;
    var x, y := ExitsAt(l, it, done), ExitsAt(l, it, done + {b});
    forall e, r | e in l.code.exits && r in l.code.exits[e]
      ensures e in Targets(l.code.blocks[b].term) ==>
        b in x[e][r] && y[e][r] == x[e][r][Label(b.block, it) := Mapped(values, x[e][r][b])]
      ensures e !in Targets(l.code.blocks[b].term) ==> y[e][r] == x[e][r]
    {
      ExitGrows(l, it, done, b, values, labels, e, r);
    }
    WithEdgesIs(l, x, y, b, it, values);
  }

  lemma WithEdgesIs(l: Loop, x: map<Label, Phis>, y: map<Label, Phis>, b: Label, it: nat, values: map<Reg, Val>)
    requires b in l.code.blocks && x.Keys == y.Keys && forall e | e in x :: x[e].Keys == y[e].Keys
    requires forall e, r | e in x && r in x[e] && e in Targets(l.code.blocks[b].term) ::
      b in x[e][r] && y[e][r] == x[e][r][Label(b.block, it) := Mapped(values, x[e][r][b])]
    requires forall e, r | e in x && r in x[e] && e !in Targets(l.code.blocks[b].term) :: y[e][r] == x[e][r]
    ensures WithEdges(l, x, b, it, values) == y
  {
    hide Mapped, Targets;
    var w := WithEdges(l, x, b, it, values);
    forall e | e in x ensures w[e] == y[e] {
      assert forall r | r in x[e] :: w[e][r] == y[e][r];
    }
  }

  lemma ExitGrows(l: Loop, it: nat, done: set<Label>, b: Label, values: map<Reg, Val>, labels: map<Label, Label>, e: Label, r: Reg)
    requires Valid(l) && ExitsExact(l) && it > 0 && b in l.code.blocks && b.copy == 0
    requires Newest(l, done + {b}, it, values, labels) && Ready(l, done + {b}, b)
    requires e in l.code.exits && r in l.code.exits[e]
    ensures var x, y := ExitsAt(l, it, done)[e][r], ExitsAt(l, it, done + {b})[e][r];
      && (e in Targets(l.code.blocks[b].term) ==> b in x && y == x[Label(b.block, it) := Mapped(values, x[b])])
      && (e !in Targets(l.code.blocks[b].term) ==> y == x)
  {
    hide Valid, Newest, SetAmong, InLoop, EdgesAt, Mapped, Renamed, Targets;
    var edges := l.code.exits[e][r];
    ExitOriginal(l, e, r);
    if e in Targets(l.code.blocks[b].term) {
      EdgesGrow(l, it, done, b, edges);
      EdgesKept(l, it, done, b, edges);
      ReadyValue(l, it, done + {b}, values, labels, edges[b]);
    } else {
      EdgesStay(l, it, done, b, edges);
    }
  }

  // ----- the running map -----

  /** What the latch's value of a header's phi is called in the copy before. */
  function Incoming(l: Loop, it: nat, values: map<Reg, Val>, r: Reg): Val
    requires Valid(l) && IsPhi(l, r) && (it > 1 ==> forall x | InLoop(l, x) :: x in values)
  {
    var v := LatchValue(l, r);
    if v.Use? && it > 1 && InLoop(l, v.reg) then values[v.reg] else v
  }

  /** The clones of a block's registers; a phi of the header has none, it is what comes from the copy before. */
  function Associations(l: Loop, b: Label, it: nat, values: map<Reg, Val>): map<Reg, Val>
    requires Valid(l) && b in l.code.blocks && (it > 1 ==> forall x | InLoop(l, x) :: x in values)
  {
    map r | r in SetBy(l.code.blocks[b]) ::
      if b == l.header && IsPhi(l, r) then Incoming(l, it, values, r) else Use(Reg(r.name, it))
  }

  lemma IncomingRenamed(l: Loop, it: nat, values: map<Reg, Val>, labels: map<Label, Label>, r: Reg)
    requires Valid(l) && it > 0 && Newest(l, {}, it, values, labels) && IsPhi(l, r) && InLoop(l, r)
    ensures it > 1 ==> forall x | InLoop(l, x) :: x in values
    ensures Incoming(l, it, values, r) == Renamed(l, it, Use(r))
  {
    hide Valid, InLoop;
    var v := LatchValue(l, r);
    if it == 1 {
      Renamed0(l, v);
    } else if v.Use? && InLoop(l, v.reg) {
      assert !SetAmong(l, {}, v.reg);
    } else {
      assert Renamed(l, it - 1, v) == v;
    }
  }

  lemma SetInLoop(l: Loop, b: Label, r: Reg)
    requires b in l.code.blocks && r in SetBy(l.code.blocks[b])
    ensures InLoop(l, r)
  {
    assert Sets(l.code.blocks[b], r);
  }

  lemma NewestValues(l: Loop, done: set<Label>, it: nat, values: map<Reg, Val>, labels: map<Label, Label>)
    requires Valid(l) && it > 0 && Newest(l, done, it, values, labels)
    ensures it > 1 ==> forall x | InLoop(l, x) :: x in values
  {
  }

  lemma AssociationsRenamed(l: Loop, done: set<Label>, b: Label, it: nat, values: map<Reg, Val>, labels: map<Label, Label>, r: Reg)
    requires Valid(l) && b in l.code.blocks && it > 0 && Newest(l, done, it, values, labels) && (b == l.header ==> done == {})
    requires r in SetBy(l.code.blocks[b])
    ensures InLoop(l, r) && (it > 1 ==> forall x | InLoop(l, x) :: x in values)
    ensures (if b == l.header && IsPhi(l, r) then Incoming(l, it, values, r) else Use(Reg(r.name, it))) == Renamed(l, it, Use(r))
  {
    SetInLoop(l, b, r);
    NewestValues(l, done, it, values, labels);
    SetCopy(l, b, r);
    hide Valid, InLoop, Newest, Renamed, IsPhi, SetBy, Incoming;
    if IsPhi(l, r) {
      InnerSetsNoPhi(l, b, r);
      IncomingRenamed(l, it, values, labels, r);
    } else {
      RenamedCopy(l, it, Use(r));
    }
  }

  lemma SetCopy(l: Loop, b: Label, r: Reg)
    requires Valid(l) && b in l.code.blocks && r in SetBy(l.code.blocks[b])
    ensures r.copy == 0
  {
    BlockFacts(l, b);
  }

  lemma InnerSetsNoPhi(l: Loop, b: Label, r: Reg)
    requires Valid(l) && b in l.code.blocks && r in SetBy(l.code.blocks[b]) && IsPhi(l, r)
    ensures b == l.header
  {
    BlockFacts(l, b);
  }

  lemma SetAmongGrows(l: Loop, done: set<Label>, b: Label, r: Reg)
    requires b in l.code.blocks
    ensures SetAmong(l, done + {b}, r) <==> SetAmong(l, done, r) || r in SetBy(l.code.blocks[b])
  {
    if SetAmong(l, done, r) {
      var c :| c in done && c in l.code.blocks && Sets(l.code.blocks[c], r);
      assert c in done + {b};
    }
    if r in SetBy(l.code.blocks[b]) { assert b in done + {b} && Sets(l.code.blocks[b], r); }
  }

  lemma NewestGrows(l: Loop, done: set<Label>, b: Label, it: nat, values: map<Reg, Val>, labels: map<Label, Label>)
    requires Valid(l) && b in l.code.blocks && it > 0 && Newest(l, done, it, values, labels) && (b == l.header ==> done == {})
    ensures it > 1 ==> forall x | InLoop(l, x) :: x in values
    ensures Newest(l, done + {b}, it, values + Associations(l, b, it, values), labels[b := Label(b.block, it)])
  {
    hide Valid, InLoop, SetAmong, IsPhi, SetBy, Incoming;
    forall r: Reg ensures SetAmong(l, done + {b}, r) <==> SetAmong(l, done, r) || r in SetBy(l.code.blocks[b]) {
      SetAmongGrows(l, done, b, r);
    }
    var m := Associations(l, b, it, values);
    forall r | r in m ensures InLoop(l, r) && m[r] == Renamed(l, it, Use(r)) {
      AssociationsRenamed(l, done, b, it, values, labels, r);
    }
  }

  // ----- the blocks -----

  lemma StageStarts(l: Loop)
    requires Valid(l)
    ensures Stage(l, 1, {}, {}, l.code.blocks)
  {
    AllOriginal(l);
    hide Valid, Clone;
    forall x | x in l.code.blocks ensures x == Origin(x) {}
  }

  lemma CopiesGrow(l: Loop, it: nat, cloned: set<Label>, b: Label, m: map<Label, Block>, x: Block)
    requires HasCopies(l, it, cloned, m) && b in l.code.blocks && b.copy == 0
    ensures HasCopies(l, it, cloned + {b}, m[Label(b.block, it) := x])
  {
    assert forall y: Label :: y == Label(b.block, it) <==> Origin(y) == b && y.copy == it;
  }

  lemma StageCloned(l: Loop, it: nat, cloned: set<Label>, b: Label, m: map<Label, Block>)
    requires Valid(l) && Stage(l, it, cloned, {}, m) && b in l.code.blocks
    ensures Stage(l, it, cloned + {b}, {}, m[Label(b.block, it) := Clone(l, b, it)])
  {
    AllOriginal(l);
    CopiesGrow(l, it, cloned, b, m, Clone(l, b, it));
    assert b == Origin(Label(b.block, it));
    hide Valid, Clone, Copied, HasCopies;
  }

  lemma StageRenamed(l: Loop, it: nat, renamed: set<Label>, b: Label, m: map<Label, Block>)
    requires Valid(l) && Stage(l, it, l.code.blocks.Keys, renamed, m) && b in l.code.blocks
    ensures Label(b.block, it) in m && (b !in renamed ==> m[Label(b.block, it)] == Clone(l, b, it))
    ensures Stage(l, it, l.code.blocks.Keys, renamed + {b}, m[Label(b.block, it) := Copied(l, b, it)])
  {
    AllOriginal(l);
    hide Valid, Clone, Copied;
    assert b == Origin(Label(b.block, it)) && Label(b.block, it) in m;
    hide HasCopies;
    assert IsStage(l, it, renamed, Label(b.block, it), m[Label(b.block, it)]);
    CopiesGrow(l, it, l.code.blocks.Keys, b, m, Copied(l, b, it));
    assert l.code.blocks.Keys + {b} == l.code.blocks.Keys;
    var m1 := m[Label(b.block, it) := Copied(l, b, it)];
    hide Stage;
    forall x | x in m1 ensures IsStage(l, it, renamed + {b}, x, m1[x]) {
      StageOf(l, it, l.code.blocks.Keys, renamed, b, m, x);
    }
    StageIs(l, it, l.code.blocks.Keys, renamed + {b}, m1);
  }

  lemma StageIs(l: Loop, it: nat, cloned: set<Label>, renamed: set<Label>, m: map<Label, Block>)
    requires Valid(l) && HasCopies(l, it, cloned, m) && forall x | x in m :: IsStage(l, it, renamed, x, m[x])
    ensures Stage(l, it, cloned, renamed, m)
  {
  }

  /** Renaming one block leaves the others as they are. */
  lemma StageOf(l: Loop, it: nat, cloned: set<Label>, renamed: set<Label>, b: Label, m: map<Label, Block>, x: Label)
    requires Valid(l) && Stage(l, it, cloned, renamed, m) && b in l.code.blocks && b.copy == 0
    requires x in m || x == Label(b.block, it)
    ensures IsStage(l, it, renamed + {b}, x, if x == Label(b.block, it) then Copied(l, b, it) else m[x])
  {
    hide Valid, Clone, Copied;
    if x == Label(b.block, it) {
      assert Origin(x) == b;
    } else {
      assert IsStage(l, it, renamed, x, m[x]) && (x.copy == it ==> Origin(x) != b);
    }
  }

  lemma StageNext(l: Loop, it: nat, m: map<Label, Block>)
    requires Valid(l) && Stage(l, it, l.code.blocks.Keys, l.code.blocks.Keys, m)
    ensures Stage(l, it + 1, {}, {}, m)
  {
    hide Valid, Clone, Copied;
  }
}
