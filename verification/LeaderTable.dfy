/** Lists of the values that have a number, whose first entry lies in the table itself. */
module LeaderTable {
  datatype Option<T> = None | Some(value: T)

  /** A value and the block that it is in. */
  datatype Leader = Leader(val: nat, block: nat)

  /** Which blocks dominate which, and which values are constants. */
  datatype Context = Context(dominates: (nat, nat) -> bool, isConstant: nat -> bool)

  predicate Reaches(c: Context, l: Leader, block: nat) { c.dominates(l.block, block) }

  /** Some entry's block dominates the block: the value is available there. */
  ghost predicate Available(c: Context, ls: seq<Leader>, block: nat) {
    exists i :: 0 <= i < |ls| && Reaches(c, ls[i], block)
  }

  /** Entry `i` is the first one that dominates the block, and is a constant if one is asked for. */
  ghost predicate FirstAt(c: Context, ls: seq<Leader>, block: nat, constant: bool, i: nat) {
    && i < |ls| && Suits(c, ls[i], block, constant)
    && forall k :: 0 <= k < i ==> !Suits(c, ls[k], block, constant)
  }

  ghost predicate FirstIs(c: Context, ls: seq<Leader>, block: nat, constant: bool, v: nat) {
    exists i: nat :: FirstAt(c, ls, block, constant, i) && ls[i].val == v
  }

  predicate Suits(c: Context, l: Leader, block: nat, constant: bool) {
    Reaches(c, l, block) && (constant ==> c.isConstant(l.val))
  }

  /** The first dominating constant, or the first dominating value if no constant dominates; none when no entry does. */
  ghost predicate IsLeader(c: Context, ls: seq<Leader>, block: nat, r: Option<nat>) {
    if r.None? then !Available(c, ls, block)
    else if exists k :: 0 <= k < |ls| && Suits(c, ls[k], block, true) then FirstIs(c, ls, block, true, r.value)
    else FirstIs(c, ls, block, false, r.value)
  }

  lemma FirstIsLonger(c: Context, ls: seq<Leader>, block: nat, constant: bool, v: nat)
    requires ls != [] && FirstIs(c, ls[..|ls| - 1], block, constant, v)
    ensures FirstIs(c, ls, block, constant, v)
  {
    hide Suits;
    var i: nat :| FirstAt(c, ls[..|ls| - 1], block, constant, i) && ls[..|ls| - 1][i].val == v;
    assert forall k :: 0 <= k < |ls| - 1 ==> ls[..|ls| - 1][k] == ls[k];
    assert FirstAt(c, ls, block, constant, i);
  }

  /** The first dominating value that satisfies a condition. */
  function First(c: Context, ls: seq<Leader>, block: nat, constant: bool): (r: Option<nat>)
    ensures r.None? <==> forall i :: 0 <= i < |ls| ==> !Suits(c, ls[i], block, constant)
    ensures r.Some? ==> FirstIs(c, ls, block, constant, r.value)
  {
    if ls == [] then None else
    var n := |ls| - 1;
    assert forall i :: 0 <= i < n ==> ls[..n][i] == ls[i];
    var r := First(c, ls[..n], block, constant);
    if r.Some? then
      FirstIsLonger(c, ls, block, constant, r.value);
      r
    else if Suits(c, ls[n], block, constant) then
      assert FirstAt(c, ls, block, constant, n);
      Some(ls[n].val)
    else None
  }

  /** The first dominating constant, or else the first dominating value. */
  function Leading(c: Context, ls: seq<Leader>, block: nat): (r: Option<nat>)
    ensures IsLeader(c, ls, block, r)
  {
    var k := First(c, ls, block, true);
    if k.Some? then k else First(c, ls, block, false)
  }

  /** There is one leader for a block, or none. */
  lemma LeadingExactly(c: Context, ls: seq<Leader>, block: nat, r: Option<nat>)
    ensures IsLeader(c, ls, block, r) <==> r == Leading(c, ls, block)
    ensures Leading(c, ls, block).Some? <==> Available(c, ls, block)
  {
    if IsLeader(c, ls, block, r) { OneLeader(c, ls, block, r, Leading(c, ls, block)); }
  }

  lemma OneLeader(c: Context, ls: seq<Leader>, block: nat, r: Option<nat>, s: Option<nat>)
    requires IsLeader(c, ls, block, r) && IsLeader(c, ls, block, s)
    ensures r == s
  {
    hide Reaches;
    forall v, w, k | FirstIs(c, ls, block, k, v) && FirstIs(c, ls, block, k, w) ensures v == w { OneFirst(c, ls, block, k, v, w); }
    if r.Some? && s.None? { SomeAvailable(c, ls, block, r.value); }
    if s.Some? && r.None? { SomeAvailable(c, ls, block, s.value); }
  }

  lemma OneFirst(c: Context, ls: seq<Leader>, block: nat, constant: bool, v: nat, w: nat)
    requires FirstIs(c, ls, block, constant, v) && FirstIs(c, ls, block, constant, w)
    ensures v == w
  {
    hide Suits;
    var i: nat :| FirstAt(c, ls, block, constant, i) && ls[i].val == v;
    var k: nat :| FirstAt(c, ls, block, constant, k) && ls[k].val == w;
  }

  lemma SomeAvailable(c: Context, ls: seq<Leader>, block: nat, r: nat)
    requires IsLeader(c, ls, block, Some(r))
    ensures Available(c, ls, block)
  {
    LeaderReaches(c, ls, block, r);
    var l :| l in ls && l.val == r && c.dominates(l.block, block);
    var i :| 0 <= i < |ls| && ls[i] == l;
    assert Reaches(c, ls[i], block);
  }

  /** A leader is an entry whose block dominates. */
  lemma LeaderReaches(c: Context, ls: seq<Leader>, block: nat, r: nat)
    requires IsLeader(c, ls, block, Some(r))
    ensures exists l :: l in ls && l.val == r && c.dominates(l.block, block)
  {
    var constant := exists k :: 0 <= k < |ls| && Suits(c, ls[k], block, true);
    var i: nat :| FirstAt(c, ls, block, constant, i) && ls[i].val == r;
    assert ls[i] in ls;
  }

  /** Scanning on behind a leader that is no constant. */
  lemma LeadingSnoc(c: Context, ls: seq<Leader>, l: Leader, block: nat, r: Option<nat>)
    requires r == Leading(c, ls, block) && (r.Some? ==> !c.isConstant(r.value))
    ensures Leading(c, ls + [l], block) == if !Reaches(c, l, block) then r
      else if c.isConstant(l.val) || r.None? then Some(l.val) else r
  {
    assert (ls + [l])[..|ls|] == ls;
  }

  lemma LeadingNone(c: Context, block: nat)
    ensures Leading(c, [], block) == None
  {
  }

  /** A constant found ends the scan. */
  lemma LeadingConstant(c: Context, ls: seq<Leader>, n: nat, block: nat)
    requires n <= |ls| && Leading(c, ls[..n], block).Some? && c.isConstant(Leading(c, ls[..n], block).value)
    ensures Leading(c, ls, block) == Leading(c, ls[..n], block)
  {
    FirstConstant(c, ls, n, block);
  }

  /** One entry further: the scan ends with a constant, or goes on. */
  lemma LeadingNext(c: Context, ls: seq<Leader>, i: nat, block: nat, r: Option<nat>)
    requires i < |ls| && r == Leading(c, ls[..i], block) && (r.Some? ==> !c.isConstant(r.value))
    ensures var l := ls[i];
      if !Reaches(c, l, block) then Leading(c, ls[..i + 1], block) == r
      else if c.isConstant(l.val) then Leading(c, ls, block) == Some(l.val)
      else Leading(c, ls[..i + 1], block) == if r.None? then Some(l.val) else r
  {
    hide Leading, First;
    LeadingSnoc(c, ls[..i], ls[i], block, r);
    assert ls[..i + 1] == ls[..i] + [ls[i]];
    if Reaches(c, ls[i], block) && c.isConstant(ls[i].val) { LeadingConstant(c, ls, i + 1, block); }
  }

  lemma {:induction false} FirstConstant(c: Context, ls: seq<Leader>, n: nat, block: nat)
    requires n <= |ls| && First(c, ls[..n], block, true).Some?
    ensures First(c, ls, block, true) == First(c, ls[..n], block, true)
    decreases |ls|
  {
    if n < |ls| {
      assert ls[..|ls| - 1][..n] == ls[..n];
      FirstConstant(c, ls[..|ls| - 1], n, block);
    } else {
      assert ls[..n] == ls;
    }
  }

  class Entry {
    var val: Option<nat>
    var block: nat
    var next: Entry?

    constructor (val: Option<nat>, block: nat, next: Entry?)
      ensures this.val == val && this.block == block && this.next == next
    {
      this.val, this.block, this.next := val, block, next;
    }
  }

  /** The list of one number. A head without a value stands for an empty list. */
  class LeaderList {
    const head: Entry
    ghost var nodes: seq<Entry>
    ghost var contents: seq<Leader>
    ghost var repr: set<object>

    constructor ()
      ensures Valid() && contents == [] && fresh(repr)
    {
      var e := new Entry(None, 0, null);
      head := e;
      nodes, contents, repr := [e], [], {this, e};
    }

    /** The entries are different, linked in order and hold the contents; only the head of an empty list has no value. */
    ghost predicate Valid()
      reads this, repr
    {
      && this in repr && (forall e | e in nodes :: e in repr)
      && |nodes| > 0 && nodes[0] == head
      && (forall i, j :: 0 <= i < j < |nodes| ==> nodes[i] != nodes[j])
      && (forall i :: 0 <= i < |nodes| - 1 ==> nodes[i].next == nodes[i + 1]) && nodes[|nodes| - 1].next == null
      && (if contents == [] then |nodes| == 1 && head.val.None? else |contents| == |nodes|)
      && forall i :: 0 <= i < |contents| ==> nodes[i].val == Some(contents[i].val) && nodes[i].block == contents[i].block
    }

    /** Puts a leader first in an empty list, and second in any other one. */
    method Add(val: nat, block: nat)
      requires Valid()
      modifies repr
      ensures Valid() && fresh(repr - old(repr))
      ensures contents == With(old(contents), Leader(val, block))
    {
      if head.val.None? {
        head.val, head.block := Some(val), block;
        contents := [Leader(val, block)];
        return;
      }
      var node := new Entry(Some(val), block, head.next);
      head.next := node;
      nodes, repr := [head, node] + nodes[1..], repr + {node};
      contents := [contents[0], Leader(val, block)] + contents[1..];
    }

    /** Takes out the first entry for a value and a block, which must be there. */
    method Remove(val: nat, block: nat)
      requires Valid() && Leader(val, block) in contents
      modifies repr
      ensures Valid() && repr == old(repr)
      ensures contents == Without(old(contents), Leader(val, block))
    {
      var prev: Entry?, curr: Entry := null, head;
      ghost var i, j := 0, IndexOf(contents, Leader(val, block));
      while !(curr.val == Some(val) && curr.block == block)
        invariant 0 <= i <= j < |nodes| && curr == nodes[i] && (if i == 0 then prev == null else prev == nodes[i - 1])
        decreases |nodes| - i
      {
        assert contents[j] == Leader(val, block);
        assert nodes[i].val == Some(contents[i].val) && nodes[i].block == contents[i].block;
        assert nodes[i].next == nodes[i + 1];
        prev := curr;
        curr := curr.next;
        i := i + 1;
      }
      if prev != null {
        UnlinkInner(prev, curr, i);
      } else {
        UnlinkHead();
      }
    }

    /** Takes out an entry behind the head. */
    method UnlinkInner(prev: Entry, curr: Entry, ghost i: nat)
      requires Valid() && 0 < i < |contents| && curr == nodes[i] && prev == nodes[i - 1]
      modifies this, prev
      ensures Valid() && repr == old(repr)
      ensures contents == old(contents)[..i] + old(contents)[i + 1..]
    {
      ghost var ns := nodes;
      if i + 1 < |ns| { assert ns[i].next == ns[i + 1]; }
      prev.next := curr.next;
      nodes := ns[..i] + ns[i + 1..];
      contents := contents[..i] + contents[i + 1..];
      forall k | 0 <= k < |nodes| - 1 ensures nodes[k].next == nodes[k + 1] {
        if k >= i { assert ns[k + 1].next == ns[k + 2]; } else if k < i - 1 { assert ns[k].next == ns[k + 1]; }
      }
    }

    /** Takes out the head's contents: the next entry is copied into it, and left out itself. */
    method UnlinkHead()
      requires Valid() && contents != []
      modifies this, head
      ensures Valid() && repr == old(repr)
      ensures contents == old(contents)[1..]
    {
      ghost var ns := nodes;
      if |ns| > 1 { assert ns[0].next == ns[1]; }
      contents := contents[1..];
      if head.next == null {
        head.val, head.block := None, 0;
      } else {
        var next := head.next;
        if |ns| > 2 { assert ns[1].next == ns[2]; }
        head.val, head.block, head.next := next.val, next.block, next.next;
        nodes := [head] + ns[2..];
        forall k | 0 <= k < |nodes| - 1 ensures nodes[k].next == nodes[k + 1] {
          if k > 0 { assert ns[k + 1].next == ns[k + 2]; }
        }
      }
    }

    lemma HeadIs()
      requires Valid()
      ensures nodes != [] && nodes[0] == head && (head.val.None? <==> contents == [])
    {
      if contents != [] { EntryAt(0); }
    }

    lemma EntryAt(i: nat)
      requires Valid() && i < |contents|
      ensures |nodes| == |contents| && nodes[i].val == Some(contents[i].val) && nodes[i].block == contents[i].block
      ensures nodes[i].next == if i + 1 < |nodes| then nodes[i + 1] else null
    {
    }

    /** A leader for a block. */
    method Find(c: Context, block: nat) returns (r: Option<nat>)
      requires Valid()
      ensures r == Leading(c, contents, block)
    {
      hide Leading, First, Valid;
      LeadingNone(c, block);
      HeadIs();
      if head.val.None? { return None; }
      r := None;
      assert contents[..0] == [];
      EntryAt(0);
      LeadingNext(c, contents, 0, block, None);
      if c.dominates(head.block, block) {
        r := head.val;
        if c.isConstant(head.val.value) { return; }
      }
      var next := head.next;
      ghost var i := 1;
      while next != null
        invariant 1 <= i <= |nodes| == |contents| && (if i < |nodes| then next == nodes[i] else next == null)
        invariant r == Leading(c, contents[..i], block) && (r.Some? ==> !c.isConstant(r.value))
        decreases |nodes| - i
      {
        EntryAt(i);
        LeadingNext(c, contents, i, block, r);
        if c.dominates(next.block, block) {
          if c.isConstant(next.val.value) { return next.val; }
          if r.None? { r := next.val; }
        }
        next := next.next;
        i := i + 1;
      }
      assert contents[..i] == contents;
    }
  }

  /** A list with one more element: the first of an empty list, the second of any other. */
  function With(ls: seq<Leader>, l: Leader): (r: seq<Leader>)
    ensures multiset(r) == multiset(ls) + multiset{l}
    ensures if ls == [] then r == [l] else |r| == |ls| + 1 && r[0] == ls[0] && r[1] == l && forall i :: 2 <= i < |r| ==> r[i] == ls[i - 1]
  {
    if ls == [] then [l] else
    assert ls == [ls[0]] + ls[1..];
    [ls[0], l] + ls[1..]
  }

  /** The first occurrence of an element. */
  function IndexOf(ls: seq<Leader>, l: Leader): (i: nat)
    requires l in ls
    ensures i < |ls| && ls[i] == l && forall k :: 0 <= k < i ==> ls[k] != l
  {
    if ls[0] == l then 0 else 1 + IndexOf(ls[1..], l)
  }

  function Without(ls: seq<Leader>, l: Leader): (r: seq<Leader>)
    requires l in ls
    ensures multiset(r) == multiset(ls) - multiset{l}
    ensures exists i :: 0 <= i < |ls| && ls[i] == l && l !in ls[..i] && r == ls[..i] + ls[i + 1..]
  {
    var i := IndexOf(ls, l);
    assert ls == ls[..i] + [l] + ls[i + 1..];
    ls[..i] + ls[i + 1..]
  }
}
