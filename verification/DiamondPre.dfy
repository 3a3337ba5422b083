/** Partial redundancy at a join: one predecessor lacks the expression and gets a copy, a phi takes the place of the original. */
module DiamondPre {
  import opened ValueNumbers
  import opened ValueTable
  import opened LeaderTable
  import opened Redundancy

  /** The value that comes from a predecessor; none from the one that gets a copy. */
  datatype Incoming = Incoming(val: Option<nat>, pred: nat)

  /** The join, what is known at its predecessors, and the instruction that is to go. */
  datatype Join = Join(block: nat, preds: seq<nat>, reachable: nat -> bool, context: Context, leaders: seq<Leader>, inst: nat)

  function LeaderAt(j: Join, p: nat): (r: Option<nat>)
    ensures IsLeader(j.context, j.leaders, p, r)
  {
    Leading(j.context, j.leaders, p)
  }

  /** No leader of the instruction's number is available at the block. */
  ghost predicate Lacks(j: Join, p: nat) { !Available(j.context, j.leaders, p) }

  /** No predecessor is the join itself, unreachable, or has the instruction for a leader. */
  ghost predicate Plain(j: Join, p: nat) { p != j.block && j.reachable(p) && !IsLeader(j.context, j.leaders, p, Some(j.inst)) }

  /** How many of the predecessors have no leader. */
  function Lacking(j: Join, ps: seq<nat>): (n: nat)
    ensures n <= |ps|
  {
    if ps == [] then 0 else Lacking(j, ps[..|ps| - 1]) + if LeaderAt(j, ps[|ps| - 1]).None? then 1 else 0
  }

  function PredMap(j: Join, ps: seq<nat>): (m: seq<Incoming>)
    ensures |m| == |ps| && forall k :: 0 <= k < |ps| ==> m[k] == Incoming(LeaderAt(j, ps[k]), ps[k])
    ensures forall k :: 0 <= k < |ps| ==> m[k].pred == ps[k] && IsLeader(j.context, j.leaders, ps[k], m[k].val)
  {
    seq(|ps|, k requires 0 <= k < |ps| => Incoming(LeaderAt(j, ps[k]), ps[k]))
  }

  /** One entry of the list of predecessors lacks the value, and all others, of which there are some, have it. */
  ghost predicate Worthwhile(j: Join) {
    && (forall k :: 0 <= k < |j.preds| ==> Plain(j, j.preds[k])) && |j.preds| > 1
    && exists i: nat :: OneLacks(j, j.preds, i)
  }

  ghost predicate OneLacks(j: Join, ps: seq<nat>, i: nat) {
    i < |ps| && forall k :: 0 <= k < |ps| ==> (Lacks(j, ps[k]) <==> k == i)
  }

  lemma LacksNone(j: Join, p: nat)
    ensures Lacks(j, p) <==> LeaderAt(j, p).None?
    ensures IsLeader(j.context, j.leaders, p, Some(j.inst)) <==> LeaderAt(j, p) == Some(j.inst)
  {
    LeadingExactly(j.context, j.leaders, p, Some(j.inst));
  }

  lemma {:induction false} LackingNone(j: Join, ps: seq<nat>)
    ensures Lacking(j, ps) == 0 <==> forall k :: 0 <= k < |ps| ==> !Lacks(j, ps[k])
  {
    hide LeaderAt, Lacks;
    if ps != [] {
      var n := |ps| - 1;
      LacksNone(j, ps[n]);
      LackingNone(j, ps[..n]);
      assert forall k :: 0 <= k < n ==> ps[..n][k] == ps[k];
    }
  }

  lemma {:induction false} LackingOne(j: Join, ps: seq<nat>)
    ensures Lacking(j, ps) == 1 <==> exists i: nat :: OneLacks(j, ps, i)
  {
    hide LeaderAt, Lacks;
    if ps != [] {
      var n := |ps| - 1;
      LacksNone(j, ps[n]);
      LackingNone(j, ps[..n]);
      LackingOne(j, ps[..n]);
      assert forall k :: 0 <= k < n ==> ps[..n][k] == ps[k];
      if Lacks(j, ps[n]) {
        assert Lacking(j, ps[..n]) == 0 <==> OneLacks(j, ps, n);
        assert forall i: nat :: OneLacks(j, ps, i) ==> i == n;
      } else {
        assert forall i: nat :: OneLacks(j, ps, i) <==> OneLacks(j, ps[..n], i);
      }
    }
  }

  lemma LackingSnoc(j: Join, ps: seq<nat>, p: nat)
    ensures Lacking(j, ps + [p]) == Lacking(j, ps) + if LeaderAt(j, p).None? then 1 else 0
  {
    assert (ps + [p])[..|ps|] == ps;
  }

  lemma PredMapSnoc(j: Join, ps: seq<nat>, p: nat)
    ensures PredMap(j, ps + [p]) == PredMap(j, ps) + [Incoming(LeaderAt(j, p), p)]
  {
    hide LeaderAt;
  }

  lemma ScanStarts(j: Join)
    ensures j.preds[..0] == [] && Lacking(j, []) == 0 && PredMap(j, []) == []
  {
  }

  /** Counts predecessors with and without a leader; a predecessor that is not plain counts as two without. */
  method ScanPredecessors(j: Join) returns (accepted: bool, predMap: seq<Incoming>, prePred: nat)
    ensures accepted <==> Worthwhile(j)
    ensures accepted ==> predMap == PredMap(j, j.preds) && Incoming(None, prePred) in predMap
  {
    hide Leading, Lacking, PredMap, Lacks, IsLeader;
    var numWith, numWithout, i := 0, 0, 0;
    predMap, prePred := [], 0;
    ScanStarts(j);
    while i < |j.preds|
      invariant 0 <= i <= |j.preds| && predMap == PredMap(j, j.preds[..i])
      invariant forall k :: 0 <= k < i ==> Plain(j, j.preds[k])
      invariant numWithout == Lacking(j, j.preds[..i]) && numWith + numWithout == i
      invariant numWithout > 0 ==> Incoming(None, prePred) in predMap
    {
      var p := j.preds[i];
      assert j.preds[..i + 1] == j.preds[..i] + [p];
      LackingSnoc(j, j.preds[..i], p);
      LacksNone(j, p);
      PredMapSnoc(j, j.preds[..i], p);
      if p == j.block || !j.reachable(p) { return false, predMap, prePred; }
      var predV := Leading(j.context, j.leaders, p);
      if predV.None? {
        predMap := predMap + [Incoming(None, p)];
        prePred := p;
        assert predMap[|predMap| - 1] == Incoming(None, p);
        numWithout := numWithout + 1;
      } else if predV.value == j.inst {
        return false, predMap, prePred;
      } else {
        predMap := predMap + [Incoming(predV, p)];
        numWith := numWith + 1;
      }
      i := i + 1;
    }
    assert j.preds[..i] == j.preds;
    LackingOne(j, j.preds);
    accepted := numWithout == 1 && numWith != 0;
  }

  // ----- the copy -----

  /** The same instruction with other operands. */
  function WithArgs(d: Def, args: seq<nat>): (r: Def)
    requires |args| == |Args(d)|
    ensures Args(r) == args
  {
    match d
    case Opaque => d
    case Operation(op, ty, _) => Operation(op, ty, args)
    case OverflowCall(op, ty, _) => OverflowCall(op, ty, args)
    case Compare(op, pred, ty, _, _) => Compare(op, pred, ty, args[0], args[1])
    case Extract(ty, _, indices) => Extract(ty, args[0], indices)
    case Insert(ty, _, _, indices) => Insert(ty, args[0], args[1], indices)
  }

  /** Arguments, constants and globals stay; another operand gives way to the leader of its number at the block. */
  ghost predicate Replaces(c: Context, ls: map<nat, seq<Leader>>, values: map<nat, nat>, fixed: nat -> bool, block: nat,
      arg: nat, op: nat)
  {
    if fixed(arg) then op == arg else arg in values && IsLeader(c, LeadersOf(ls, values[arg]), block, Some(op))
  }

  /** What takes the place of each operand. */
  ghost predicate OperandsAt(c: Context, ls: map<nat, seq<Leader>>, values: map<nat, nat>, fixed: nat -> bool, block: nat,
      args: seq<nat>, ops: seq<nat>)
  {
    |ops| == |args| && forall i :: 0 <= i < |args| ==> Replaces(c, ls, values, fixed, block, args[i], ops[i])
  }

  /** An operand stays, or some value with its number is available at the block. */
  ghost predicate Replaceable(c: Context, ls: map<nat, seq<Leader>>, values: map<nat, nat>, fixed: nat -> bool, block: nat, arg: nat) {
    fixed(arg) || (arg in values && Available(c, LeadersOf(ls, values[arg]), block))
  }

  /** An operand in its place is itself, or the value of a leader with its number whose block dominates. */
  lemma ReplacedByAvailable(c: Context, ls: map<nat, seq<Leader>>, values: map<nat, nat>, fixed: nat -> bool, block: nat,
      args: seq<nat>, ops: seq<nat>, i: nat)
    requires OperandsAt(c, ls, values, fixed, block, args, ops) && i < |args|
    ensures i < |ops| && if fixed(args[i]) then ops[i] == args[i] else
      args[i] in values && exists l :: l in LeadersOf(ls, values[args[i]]) && l.val == ops[i] && c.dominates(l.block, block)
  {
    hide IsLeader;
    assert Replaces(c, ls, values, fixed, block, args[i], ops[i]);
    if !fixed(args[i]) { LeaderReaches(c, LeadersOf(ls, values[args[i]]), block, ops[i]); }
  }

  /** Replaces the operands of a copy by what is available at the end of a block, and gives up where nothing is. */
  method CopyOperands(c: Context, ls: map<nat, seq<Leader>>, values: map<nat, nat>, fixed: nat -> bool, block: nat, args: seq<nat>)
    returns (success: bool, ops: seq<nat>)
    requires forall i :: 0 <= i < |args| ==> fixed(args[i]) || args[i] in values
    ensures success <==> forall i :: 0 <= i < |args| ==> Replaceable(c, ls, values, fixed, block, args[i])
    ensures success ==> OperandsAt(c, ls, values, fixed, block, args, ops)
    ensures success ==> forall i :: 0 <= i < |args| && !fixed(args[i]) ==>
      exists l :: l in LeadersOf(ls, values[args[i]]) && l.val == ops[i] && c.dominates(l.block, block)
  {
    hide Leading, IsLeader, Available;
    ops := args;
    var i := 0;
    while i < |args|
      invariant 0 <= i <= |args| == |ops|
      invariant forall k :: 0 <= k < i ==> Replaceable(c, ls, values, fixed, block, args[k])
      invariant forall k :: 0 <= k < i ==> Replaces(c, ls, values, fixed, block, args[k], ops[k])
      invariant forall k :: i <= k < |args| ==> ops[k] == args[k]
    {
      if !fixed(args[i]) {
        var v := Leading(c, LeadersOf(ls, values[args[i]]), block);
        LeadingExactly(c, LeadersOf(ls, values[args[i]]), block, v);
        if v.None? {
          assert !Replaceable(c, ls, values, fixed, block, args[i]);
          return false, ops;
        }
        ops := ops[i := v.value];
      }
      i := i + 1;
    }
    forall i | 0 <= i < |args| && !fixed(args[i])
      ensures exists l :: l in LeadersOf(ls, values[args[i]]) && l.val == ops[i] && c.dominates(l.block, block)
    {
      ReplacedByAvailable(c, ls, values, fixed, block, args, ops, i);
    }
    return true, ops;
  }

  /** The copy computes the value of the original. */
  lemma CopyComputes(c: Context, ls: map<nat, seq<Leader>>, t: Table, defs: seq<Def>, fixed: nat -> bool, block: nat, d: Def,
      ops: seq<nat>, m: Meaning)
    requires Registered(ls, t.values) && Sound(t, defs) && Satisfies(m, defs)
    requires OperandsAt(c, ls, t.values, fixed, block, Args(d), ops)
    ensures Computed(m, WithArgs(d, ops)) == Computed(m, d)
  {
    var args := Args(d);
    hide Registered, Sound, Satisfies, IsLeader;
    forall i | 0 <= i < |ops| ensures m.value(ops[i]) == m.value(args[i]) {
      assert Replaces(c, ls, t.values, fixed, block, args[i], ops[i]);
      if !fixed(args[i]) { LeaderEquals(ls, t, defs, c, block, args[i], ops[i]); }
    }
    assert Args(WithArgs(d, ops)) == ops || d.Opaque?;
    assert ValuesOf(m, ops) == ValuesOf(m, args);
  }

  /** What comes in along each edge is the value of the instruction that the phi takes the place of. */
  lemma IncomingEquals(j: Join, ls: map<nat, seq<Leader>>, t: Table, defs: seq<Def>, fixed: nat -> bool, ops: seq<nat>, prePred: nat,
      m: Meaning, k: nat)
    requires Registered(ls, t.values) && Sound(t, defs) && Satisfies(m, defs)
    requires j.inst < |defs| && !defs[j.inst].Opaque? && j.inst in t.values && j.leaders == LeadersOf(ls, t.values[j.inst])
    requires k < |j.preds| && OperandsAt(j.context, ls, t.values, fixed, prePred, Args(defs[j.inst]), ops)
    ensures var incoming := PredMap(j, j.preds)[k].val;
      m.value(j.inst) == if incoming.Some? then m.value(incoming.value) else Computed(m, WithArgs(defs[j.inst], ops))
  {
    hide Registered, Sound, Leading, IsLeader;
    if LeaderAt(j, j.preds[k]).Some? {
      LeaderEquals(ls, t, defs, j.context, j.preds[k], j.inst, LeaderAt(j, j.preds[k]).value);
    } else {
      CopyComputes(j.context, ls, t, defs, fixed, prePred, defs[j.inst], ops, m);
    }
  }

  // ----- the work -----

  type Path = seq<nat>

  /** How often a path comes through a block. */
  function Visits(path: Path, b: nat): nat {
    if path == [] then 0 else Visits(path[..|path| - 1], b) + if path[|path| - 1] == b then 1 else 0
  }

  /** How often a path comes to `b` from a block other than `p`. */
  function Others(path: Path, p: nat, b: nat): nat {
    if |path| < 2 then 0 else
    Others(path[..|path| - 1], p, b) + if path[|path| - 1] == b && path[|path| - 2] != p then 1 else 0
  }

  predicate IsPath(path: Path, succs: nat -> seq<nat>) { forall i :: 0 < i < |path| ==> path[i] in succs(path[i - 1]) }

  /**
   * The copy runs once for each visit of its block, which leads nowhere but to the join, where the original ran
   * once for each visit. So every path saves exactly the visits that come from other predecessors, and may only
   * have run the copy early while it is still on its way to the join.
   */
  lemma {:induction false} WorkSaved(path: Path, succs: nat -> seq<nat>, prePred: nat, join: nat)
    requires IsPath(path, succs) && succs(prePred) == [join] && prePred != join && |path| > 0 && path[0] != join
    ensures Visits(path, prePred) + Others(path, prePred, join)
      == Visits(path, join) + if path[|path| - 1] == prePred then 1 else 0
    decreases |path|
  {
    var n := |path| - 1;
    if n == 0 {
      assert path[..0] == [];
    } else {
      var q := path[..n];
      assert IsPath(q, succs) && q[n - 1] == path[n - 1];
      WorkSaved(q, succs, prePred, join);
    }
  }

  /** No path from the entry that has left the block of the copy runs it more often than the original. */
  lemma NoMoreWork(path: Path, succs: nat -> seq<nat>, prePred: nat, join: nat)
    requires IsPath(path, succs) && succs(prePred) == [join] && prePred != join && |path| > 0 && path[0] != join
    requires path[|path| - 1] != prePred
    ensures Visits(path, prePred) <= Visits(path, join)
    ensures Visits(path, prePred) == Visits(path, join) <==> Others(path, prePred, join) == 0
  {
    WorkSaved(path, succs, prePred, join);
  }

  /** An edge is critical when it leaves several and enters several: with more than one predecessor, the block has one successor. */
  predicate Critical(succs: nat -> seq<nat>, p: nat, preds: seq<nat>) { |succs(p)| > 1 && |preds| > 1 }

  lemma OneSuccessor(succs: nat -> seq<nat>, p: nat, j: Join)
    requires Worthwhile(j) && !Critical(succs, p, j.preds) && j.block in succs(p)
    ensures succs(p) == [j.block]
  {
  }

  // ----- the whole insertion -----

  /** The block of the copy, the copy's operands, and what the phi takes along each edge: the copy where there is no value. */
  datatype Insertion = Insertion(prePred: nat, ops: seq<nat>, incoming: seq<Incoming>)

  /** All the tests that come before an insertion. */
  ghost predicate Accepted(j: Join, ls: map<nat, seq<Leader>>, values: map<nat, nat>, fixed: nat -> bool, succs: nat -> seq<nat>,
      d: Def, x: Insertion)
  {
    && Worthwhile(j) && x.incoming == PredMap(j, j.preds) && Incoming(None, x.prePred) in x.incoming
    && !Critical(succs, x.prePred, j.preds)
    && OperandsAt(j.context, ls, values, fixed, x.prePred, Args(d), x.ops)
  }

  /** The copy can be made at the end of a block. */
  ghost predicate Copyable(j: Join, ls: map<nat, seq<Leader>>, values: map<nat, nat>, fixed: nat -> bool, args: seq<nat>, p: nat) {
    forall i :: 0 <= i < |args| ==> Replaceable(j.context, ls, values, fixed, p, args[i])
  }

  /** Only one predecessor of an accepted join lacks the value. */
  lemma OnlyLacking(j: Join, p: nat, q: nat)
    requires Worthwhile(j) && p in j.preds && q in j.preds && Lacks(j, p) && Lacks(j, q)
    ensures p == q
  {
    hide Lacks, Plain;
    var a :| 0 <= a < |j.preds| && j.preds[a] == p;
    var b :| 0 <= b < |j.preds| && j.preds[b] == q;
    var i: nat :| OneLacks(j, j.preds, i);
    assert a == i == b;
  }

  lemma SeveralPreds(j: Join)
    requires Worthwhile(j)
    ensures |j.preds| > 1
  {
  }

  /**
   * An accepted join, told by the list of leaders: every predecessor is reachable and another block. One of them is
   * dominated by no leader, leads nowhere else and gets the copy; each other one is dominated by the block of the
   * leader that comes in from it.
   */
  lemma AcceptedMeans(j: Join, ls: map<nat, seq<Leader>>, values: map<nat, nat>, fixed: nat -> bool, succs: nat -> seq<nat>,
      d: Def, x: Insertion, k: nat)
    requires Accepted(j, ls, values, fixed, succs, d, x) && k < |j.preds|
    ensures |x.incoming| == |j.preds| > 1 && |succs(x.prePred)| <= 1 && x.prePred in j.preds
    ensures j.preds[k] != j.block && j.reachable(j.preds[k]) && x.incoming[k].pred == j.preds[k]
    ensures x.incoming[k].val.None? <==> j.preds[k] == x.prePred
    ensures x.incoming[k].val.None? <==> !exists l :: l in j.leaders && j.context.dominates(l.block, j.preds[k])
    ensures x.incoming[k].val.Some? ==>
      && x.incoming[k].val.value != j.inst
      && exists l :: l in j.leaders && l.val == x.incoming[k].val.value && j.context.dominates(l.block, j.preds[k])
  {
    hide IsLeader, OperandsAt, Args, Available, PredMap;
    var i :| 0 <= i < |x.incoming| && x.incoming[i] == Incoming(None, x.prePred);
    assert j.preds[i] == x.prePred;
    var one: nat :| OneLacks(j, j.preds, one);
    assert Plain(j, j.preds[k]);
    LacksNone(j, j.preds[k]);
    LacksNone(j, j.preds[i]);
    AvailableLeader(j.context, j.leaders, j.preds[k]);
    if x.incoming[k].val.Some? { LeaderReaches(j.context, j.leaders, j.preds[k], x.incoming[k].val.value); }
  }

  lemma AvailableLeader(c: Context, ls: seq<Leader>, block: nat)
    ensures Available(c, ls, block) <==> exists l :: l in ls && c.dominates(l.block, block)
  {
    if l :| l in ls && c.dominates(l.block, block) {
      var i :| 0 <= i < |ls| && ls[i] == l;
      assert Reaches(c, ls[i], block);
    }
    if i :| 0 <= i < |ls| && Reaches(c, ls[i], block) { assert ls[i] in ls; }
  }

  /** Decides about one instruction; `enabled` stands for a last test that can only refuse. */
  method InsertAtJoin(j: Join, ls: map<nat, seq<Leader>>, values: map<nat, nat>, fixed: nat -> bool, succs: nat -> seq<nat>,
      d: Def, enabled: bool)
    returns (r: Option<Insertion>)
    requires forall i :: 0 <= i < |Args(d)| ==> fixed(Args(d)[i]) || Args(d)[i] in values
    ensures r.Some? <==>
      (enabled && Worthwhile(j)
       && exists p :: p in j.preds && Lacks(j, p) && |succs(p)| <= 1 && Copyable(j, ls, values, fixed, Args(d), p))
    ensures r.Some? ==> Accepted(j, ls, values, fixed, succs, d, r.value)
    ensures r.Some? ==> r.value.prePred in j.preds && Lacks(j, r.value.prePred)
    ensures r.Some? ==> forall i :: 0 <= i < |Args(d)| ==>
      if fixed(Args(d)[i]) then r.value.ops[i] == Args(d)[i] else
      exists l :: l in LeadersOf(ls, values[Args(d)[i]]) && l.val == r.value.ops[i] && j.context.dominates(l.block, r.value.prePred)
  {
    hide Leading, Worthwhile, Args, OperandsAt, Lacks, Replaceable;
    var accepted, predMap, prePred := ScanPredecessors(j);
    if !accepted { return None; }
    ghost var i :| 0 <= i < |predMap| && predMap[i] == Incoming(None, prePred);
    LacksNone(j, prePred);
    assert j.preds[i] == prePred && Lacks(j, prePred);
    forall p | p in j.preds && Lacks(j, p) ensures p == prePred { OnlyLacking(j, p, prePred); }
    SeveralPreds(j);
    if |succs(prePred)| > 1 && |j.preds| > 1 { return None; }
    var success, ops := CopyOperands(j.context, ls, values, fixed, prePred, Args(d));
    if !success || !enabled { return None; }
    forall i | 0 <= i < |Args(d)| && fixed(Args(d)[i]) ensures i < |ops| && ops[i] == Args(d)[i] {
      ReplacedByAvailable(j.context, ls, values, fixed, prePred, Args(d), ops, i);
    }
    return Some(Insertion(prePred, ops, predMap));
  }

  /**
   * An insertion keeps the meaning and adds no work: along every edge the phi takes the value of the instruction that
   * is to go, and no path from elsewhere that has left the block of the copy evaluates the expression more often.
   */
  lemma InsertionIsSound(j: Join, ls: map<nat, seq<Leader>>, t: Table, defs: seq<Def>, fixed: nat -> bool, succs: nat -> seq<nat>,
      x: Insertion)
    requires Registered(ls, t.values) && Sound(t, defs)
    requires j.inst < |defs| && !defs[j.inst].Opaque? && j.inst in t.values && j.leaders == LeadersOf(ls, t.values[j.inst])
    requires forall p | p in j.preds :: j.block in succs(p)
    requires Accepted(j, ls, t.values, fixed, succs, defs[j.inst], x)
    ensures forall m: Meaning, k | Satisfies(m, defs) && 0 <= k < |x.incoming| ::
      m.value(j.inst) == EdgeValue(m, x.incoming[k], defs[j.inst], x.ops)
    ensures forall path: Path | IsPath(path, succs) && path != [] && path[0] != j.block && path[|path| - 1] != x.prePred ::
      Visits(path, x.prePred) <= Visits(path, j.block)
      && (Visits(path, x.prePred) == Visits(path, j.block) <==> Others(path, x.prePred, j.block) == 0)
  {
    assert |x.ops| == |Args(defs[j.inst])|;
    hide Registered, Sound, Satisfies, Leading, OperandsAt, Visits, Others, IsPath, Computed;
    var i :| 0 <= i < |x.incoming| && x.incoming[i] == Incoming(None, x.prePred);
    assert j.preds[i] == x.prePred && Plain(j, j.preds[i]);
    OneSuccessor(succs, x.prePred, j);
    forall m: Meaning, k | Satisfies(m, defs) && 0 <= k < |x.incoming|
      ensures m.value(j.inst) == EdgeValue(m, x.incoming[k], defs[j.inst], x.ops)
    {
      IncomingEquals(j, ls, t, defs, fixed, x.ops, x.prePred, m, k);
    }
    forall path: Path | IsPath(path, succs) && path != [] && path[0] != j.block && path[|path| - 1] != x.prePred
      ensures Visits(path, x.prePred) <= Visits(path, j.block)
      ensures Visits(path, x.prePred) == Visits(path, j.block) <==> Others(path, x.prePred, j.block) == 0
    {
      NoMoreWork(path, succs, x.prePred, j.block);
    }
  }

  /** What comes in along an edge: a leader's value, or the copy's. */
  function EdgeValue(m: Meaning, e: Incoming, d: Def, ops: seq<nat>): int
    requires |ops| == |Args(d)|
  {
    if e.val.Some? then m.value(e.val.value) else Computed(m, WithArgs(d, ops))
  }
}
