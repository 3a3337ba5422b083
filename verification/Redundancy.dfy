/** Redundant instructions: numbered, and replaced by a leader that dominates them. */
module Redundancy {
  import opened ValueNumbers
  import opened ValueTable
  import opened LeaderTable

  /** The leaders of a number. */
  function LeadersOf(ls: map<nat, seq<Leader>>, n: nat): seq<Leader> { if n in ls then ls[n] else [] }

  /** Each leader of a number has that number. */
  ghost predicate Registered(ls: map<nat, seq<Leader>>, values: map<nat, nat>) {
    forall n, i | n in ls && 0 <= i < |ls[n]| :: ls[n][i].val in values && values[ls[n][i].val] == n
  }

  ghost predicate Listed(ls: map<nat, seq<Leader>>, v: nat) {
    exists n, i :: n in ls && 0 <= i < |ls[n]| && ls[n][i].val == v
  }

  lemma RegisteredMore(ls: map<nat, seq<Leader>>, values: map<nat, nat>, l: Leader)
    requires Registered(ls, values) && l.val in values
    ensures var n := values[l.val]; Registered(ls[n := With(LeadersOf(ls, n), l)], values)
  {
    var n := values[l.val];
    forall i | 0 <= i < |With(LeadersOf(ls, n), l)|
      ensures With(LeadersOf(ls, n), l)[i].val in values && values[With(LeadersOf(ls, n), l)[i].val] == n
    {
      if With(LeadersOf(ls, n), l)[i] != l { assert With(LeadersOf(ls, n), l)[i] in LeadersOf(ls, n); }
    }
  }

  lemma RegisteredGrown(ls: map<nat, seq<Leader>>, t: Table, u: Table)
    requires Registered(ls, t.values) && Grown(t, u)
    ensures Registered(ls, u.values)
  {
  }

  lemma RegisteredWithout(ls: map<nat, seq<Leader>>, values: map<nat, nat>, v: nat)
    requires Registered(ls, values) && !Listed(ls, v)
    ensures Registered(ls, values - {v})
  {
  }

  /** A number that is new has no leaders, so that looking for one would find none. */
  lemma NewNumberNoLeader(ls: map<nat, seq<Leader>>, t: Table, n: nat, c: Context, block: nat)
    requires Registered(ls, t.values) && Consed(t) && n >= |t.origins|
    ensures Leading(c, LeadersOf(ls, n), block) == None
  {
    hide Leading;
    NoneListed(ls, t.values, n);
    LeadingNone(c, block);
  }

  lemma NoneListed(ls: map<nat, seq<Leader>>, values: map<nat, nat>, n: nat)
    requires Registered(ls, values) && forall v | v in values :: values[v] != n
    ensures LeadersOf(ls, n) == []
  {
    SomeListed(ls, values, n);
  }

  lemma SomeListed(ls: map<nat, seq<Leader>>, values: map<nat, nat>, n: nat)
    requires Registered(ls, values)
    ensures LeadersOf(ls, n) != [] ==> exists v :: v in values && values[v] == n
  {
    if n in ls && ls[n] != [] {
      var v := ls[n][0].val;
      assert v in values && values[v] == n;
    }
  }

  /** A leader has the number it leads, so it equals each value with that number. */
  lemma LeaderEquals(ls: map<nat, seq<Leader>>, t: Table, defs: seq<Def>, c: Context, block: nat, v: nat, r: nat)
    requires Registered(ls, t.values) && Sound(t, defs) && v in t.values
    requires IsLeader(c, LeadersOf(ls, t.values[v]), block, Some(r))
    ensures r in t.values && t.values[r] == t.values[v]
    ensures forall m: Meaning | Satisfies(m, defs) :: m.value(v) == m.value(r)
    ensures exists l :: l in LeadersOf(ls, t.values[v]) && l.val == r && c.dominates(l.block, block)
  {
    var n := t.values[v];
    hide IsLeader, Sound, Satisfies;
    LeaderReaches(c, LeadersOf(ls, n), block, r);
    var l :| l in LeadersOf(ls, n) && l.val == r && c.dominates(l.block, block);
    var i :| 0 <= i < |ls[n]| && ls[n][i] == l;
    assert ls[n][i].val in t.values;
    forall m: Meaning | Satisfies(m, defs) ensures m.value(v) == m.value(r) {
      EqualNumbersEqualValues(t, defs, m, v, r);
    }
  }

  class Pass {
    const vn: ValueTable
    const blockOf: nat -> nat
    const context: Context
    const unique: nat -> bool
    var leaders: map<nat, seq<Leader>>

    constructor (defs: seq<Def>, blockOf: nat -> nat, context: Context, unique: nat -> bool)
      ensures Valid() && vn.defs == defs && leaders == map[] && fresh(vn)
    {
      vn := new ValueTable(defs);
      this.blockOf, this.context, this.unique, leaders := blockOf, context, unique, map[];
    }

    ghost predicate Valid()
      reads this, vn
    {
      vn.Valid() && Registered(leaders, vn.valueNumbering)
    }

    /** Adds a value to the leaders of a number; all are still right if it has that number. */
    method AddToLeaderTable(n: nat, v: nat, b: nat)
      modifies this
      ensures multiset(LeadersOf(leaders, n)) == multiset(LeadersOf(old(leaders), n)) + multiset{Leader(v, b)}
      ensures forall k :: k != n ==> LeadersOf(leaders, k) == LeadersOf(old(leaders), k)
      ensures old(Valid()) && v in vn.valueNumbering && vn.valueNumbering[v] == n ==> Valid()
      ensures leaders == old(leaders)[n := With(LeadersOf(old(leaders), n), Leader(v, b))]
    {
      if Valid() && v in vn.valueNumbering && vn.valueNumbering[v] == n {
        RegisteredMore(leaders, vn.valueNumbering, Leader(v, b));
      }
      leaders := leaders[n := With(LeadersOf(leaders, n), Leader(v, b))];
    }

    /**
     * Numbers an instruction, by its expression if it has no number yet. With a dominating leader of that number it
     * is redundant: the leader is its value in each valuation, and it can go. Without one it becomes a leader; a new
     * number is not even looked up.
     */
    method ProcessInstruction(v: nat) returns (repl: Option<nat>)
      requires Valid() && WellFormed(vn.defs) && v < |vn.defs| && !Listed(leaders, v)
      modifies this, vn
      ensures Valid()
      ensures repl.Some? ==> !unique(v) && leaders == old(leaders) && v !in vn.valueNumbering && repl.value in vn.valueNumbering
      ensures repl.Some? ==> forall m: Meaning | Satisfies(m, vn.defs) :: m.value(v) == m.value(repl.value)
      ensures repl.Some? ==> repl == Leading(context, LeadersOf(leaders, vn.valueNumbering[repl.value]), blockOf(v))
      ensures repl.Some? && v !in old(vn.valueNumbering) ==>
        Keyed(WithValue(vn.Contents(), v, vn.valueNumbering[repl.value]), vn.defs, v)
      ensures repl.None? ==> v in vn.valueNumbering
      ensures repl.None? && v !in old(vn.valueNumbering) ==> Keyed(vn.Contents(), vn.defs, v)
      ensures repl.Some? ==> Grown(old(vn.Contents()), WithValue(vn.Contents(), v, vn.valueNumbering[repl.value]))
      ensures repl.None? ==> Grown(old(vn.Contents()), vn.Contents())
      ensures repl.None? ==> var n := vn.valueNumbering[v];
        leaders == old(leaders)[n := With(LeadersOf(old(leaders), n), Leader(v, blockOf(v)))]
      ensures repl.None? ==> unique(v) || Leading(context, LeadersOf(old(leaders), vn.valueNumbering[v]), blockOf(v)) == None
    {
      hide Registered, Listed, Leading, Consed, Sound, Grown, Keyed, WellFormed, LeadersOf, With, Satisfies, NewUpTo;
      ghost var before := vn.Contents();
      var nextNum := vn.nextValueNumber;
      var num := vn.LookupOrAdd(v);
      RegisteredGrown(leaders, before, vn.Contents());
      if unique(v) || num >= nextNum {
        if num >= nextNum {
          NewNumberNoLeader(leaders, before, num, context, blockOf(v));
        }
        RegisteredMore(leaders, vn.valueNumbering, Leader(v, blockOf(v)));
        AddToLeaderTable(num, v, blockOf(v));
        return None;
      }
      repl := Leading(context, LeadersOf(leaders, num), blockOf(v));
      if repl.None? {
        RegisteredMore(leaders, vn.valueNumbering, Leader(v, blockOf(v)));
        AddToLeaderTable(num, v, blockOf(v));
        return;
      }
      LeaderEquals(leaders, vn.Contents(), vn.defs, context, blockOf(v), v, repl.value);
      NotItself(leaders, num, repl.value, v);
      RegisteredWithout(leaders, vn.valueNumbering, v);
      ghost var after := vn.Contents();
      Restored(after.values, v);
      vn.Erase(v);
      assert WithValue(vn.Contents(), v, num) == after;
    }
  }

  lemma Restored(values: map<nat, nat>, v: nat)
    requires v in values
    ensures (values - {v})[v := values[v]] == values
  {
  }

  lemma NotItself(ls: map<nat, seq<Leader>>, n: nat, r: nat, v: nat)
    requires !Listed(ls, v) && exists l :: l in LeadersOf(ls, n) && l.val == r
    ensures r != v
  {
    var l :| l in LeadersOf(ls, n) && l.val == r;
    var i :| 0 <= i < |ls[n]| && ls[n][i] == l;
  }
}
