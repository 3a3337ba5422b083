/** The optimistic search for blocks in which a value is fully available. */
module Availability {

  /** Predecessors and successors of the blocks 0, 1, ... of a function. */
  datatype Cfg = Cfg(preds: seq<seq<nat>>, succs: seq<seq<nat>>) {
    ghost predicate Valid() {
      && |preds| == |succs|
      && (forall b, i :: 0 <= b < |preds| && 0 <= i < |preds[b]| ==> preds[b][i] < |preds| && b in succs[preds[b][i]])
      && (forall b, i :: 0 <= b < |succs| && 0 <= i < |succs[b]| ==> succs[b][i] < |preds| && b in preds[succs[b][i]])
    }

    /** Control can go through the blocks of `path` in order. */
    ghost predicate IsPath(path: seq<nat>) {
      && (forall i :: 0 <= i < |path| ==> path[i] < |preds|)
      && (forall i :: 0 <= i < |path| - 1 ==> path[i] in preds[path[i + 1]])
    }
  }

  /** On the path the value is made available and not lost again. */
  ghost predicate Provided(avail: set<nat>, unavail: set<nat>, path: seq<nat>) {
    exists i :: 0 <= i < |path| && path[i] in avail && forall j :: i <= j < |path| ==> path[j] !in unavail
  }

  class Search {
    const g: Cfg
    const maxDepth: nat
    /** 0: not available, 1: available, 2: speculated to be, 3: speculated and relied upon. */
    var state: map<nat, int>
    ghost const avail: set<nat>
    ghost const unavail: set<nat>

    /** The map starts with the blocks known to provide the value and those known to lose it. */
    constructor (g: Cfg, maxDepth: nat, valuesPerBlock: seq<nat>, unavailableBlocks: seq<nat>)
      requires g.Valid()
      requires forall b :: b in valuesPerBlock || b in unavailableBlocks ==> b < |g.preds|
      ensures this.g == g && this.maxDepth == maxDepth && Valid({}) && Fresh()
      ensures unavail == (set b | b in unavailableBlocks)
      ensures avail == (set b | b in valuesPerBlock) - unavail
      ensures state.Keys == avail + unavail && forall b :: b in state ==> state[b] == if b in unavail then 0 else 1
    {
      this.g, this.maxDepth := g, maxDepth;
      avail := (set b | b in valuesPerBlock) - (set b | b in unavailableBlocks);
      unavail := set b | b in unavailableBlocks;
      state := map[];
      new;
      hide Consistent, Cfg.Valid;
      for i := 0 to |valuesPerBlock|
        invariant state.Keys == (set b | b in valuesPerBlock[..i])
        invariant forall b :: b in state ==> state[b] == 1
      {
        state := state[valuesPerBlock[i] := 1];
      }
      for i := 0 to |unavailableBlocks|
        invariant state.Keys == (set b | b in valuesPerBlock) + (set b | b in unavailableBlocks[..i])
        invariant forall b :: b in state ==> state[b] == if b in unavailableBlocks[..i] then 0 else 1
      {
        state := state[unavailableBlocks[i] := 0];
      }
      assert unavailableBlocks[..|unavailableBlocks|] == unavailableBlocks;
      Starts(state);
    }

    lemma Starts(s: map<nat, int>)
      requires avail !! unavail && s.Keys == avail + unavail && forall b :: b in s ==> b < |g.preds| && s[b] == if b in unavail then 0 else 1
      ensures Consistent(s, {}, [])
    {
    }

    /** No answer has been worked out yet: the only blocks known not to be available are the initial ones. */
    ghost predicate Fresh()
      reads this
    {
      forall b :: b in state && state[b] == 0 ==> b in unavail
    }

    /** Block `p` is taken to be available; if it is still being searched, that has been noted. */
    static ghost predicate Relied(p: nat, s: map<nat, int>, stack: set<nat>) {
      p in s && s[p] != 0 && (p in stack ==> s[p] == 3)
    }

    /** Block `b` was found to be available because all of its predecessors are taken to be. */
    ghost predicate Supported(b: nat, s: map<nat, int>, stack: set<nat>)
      requires b < |g.preds|
    {
      g.preds[b] != [] && forall i :: 0 <= i < |g.preds[b]| ==> Relied(g.preds[b][i], s, stack)
    }

    /** `stack` holds the blocks being searched; those in `todo` are about to be repaired. */
    ghost predicate Consistent(s: map<nat, int>, stack: set<nat>, todo: seq<nat>) {
      && (forall b :: b in s ==> b < |g.preds| && 0 <= s[b] <= 3 && (s[b] == 1 ==> b in avail))
      && (forall b :: b in unavail ==> b in s && s[b] == 0)
      && (forall b :: b in avail ==> b in s && s[b] <= 1)
      && (forall b :: b in stack ==> b in s && b !in avail && b !in unavail)
      && (forall b :: b in s && s[b] != 0 && b !in avail && b !in stack && b !in todo ==> Supported(b, s, stack))
    }

    ghost predicate Valid(stack: set<nat>)
      reads this
    {
      g.Valid() && avail !! unavail && Consistent(state, stack, [])
    }

    // ----- what a search does to the map -----

    /** `p` leads to `b`, and behind its first block `s` has an entry for none of its blocks. */
    ghost predicate Unexplored(s: map<nat, int>, p: seq<nat>, b: nat) {
      p != [] && p[|p| - 1] == b && g.IsPath(p) && forall i :: 1 <= i < |p| ==> p[i] !in s
    }

    /** The block is known not to have the value, or cannot have got it. */
    ghost predicate Missing(s: map<nat, int>, x: nat) {
      x < |g.preds| && if x in s then s[x] == 0 else g.preds[x] == []
    }

    /** Why a search fails: an unexplored path leads here from a block without the value, or was followed to the limit. */
    ghost predicate Cause(s: map<nat, int>, b: nat, path: seq<nat>, depth: nat) {
      && Unexplored(s, path, b)
      && (Missing(s, path[0])
          || (|path| + depth == maxDepth + 2 && forall i, j :: 1 <= i < j < |path| ==> path[i] != path[j]))
    }

    /** A search for `b` can have come to ask for `x`. */
    ghost predicate Asked(s: map<nat, int>, x: nat, b: nat) {
      exists p :: Unexplored(s, p, b) && p[0] == x
    }

    /** A search for `y` can have come to rely on `y` itself. */
    ghost predicate OnCycle(s: map<nat, int>, y: nat) {
      exists c :: |c| > 1 && Unexplored(s, c, y) && c[0] == y
    }

    /** The block was not known to lack the value, and is now. */
    static ghost predicate GivenUp(s: map<nat, int>, s': map<nat, int>, x: nat) {
      x in s' && s'[x] == 0 && (x in s ==> s[x] != 0)
    }

    /** The block was given up in the repair of a block on `path`, which had been relied upon. */
    ghost predicate Undone(s: map<nat, int>, s': map<nat, int>, path: seq<nat>, x: nat) {
      exists q: seq<nat> :: q != [] && q[0] in path && OnCycle(s, q[0]) && q[|q| - 1] == x && g.IsPath(q)
        && forall i :: 0 <= i < |q| ==> GivenUp(s, s', q[i])
    }

    /** An entry stays, turns out to be relied upon, or is given up in a repair. */
    ghost predicate OldEntry(s: map<nat, int>, s': map<nat, int>, b: nat, path: seq<nat>, r: bool, x: nat)
      requires x in s
    {
      x in s' && (s'[x] == s[x] || (s[x] == 2 && s'[x] == 3 && Asked(s, x, b)) || (!r && s'[x] == 0 && Undone(s, s', path, x)))
    }

    /** A new entry is one for a block that was searched, which failed if it is on the path, or is given up in a repair. */
    ghost predicate NewEntry(s: map<nat, int>, s': map<nat, int>, b: nat, path: seq<nat>, r: bool, x: nat)
      requires x in s'
    {
      (s'[x] >= 2 && Asked(s, x, b)) || (!r && s'[x] == 0 && (x in path || Undone(s, s', path, x)))
    }

    /** What a search for `b` does to the map if it answers `r`, and fails along `path`. */
    ghost predicate Effect(s: map<nat, int>, s': map<nat, int>, b: nat, path: seq<nat>, r: bool) {
      && (forall x :: x in s ==> OldEntry(s, s', b, path, r, x))
      && forall x :: x in s' && x !in s ==> NewEntry(s, s', b, path, r, x)
    }

    /**
     * The recursive search. It fails exactly when an unexplored path leads to `b` from a block that lacks the value,
     * or when it would get too deep. A positive answer leaves everything found before in place; a negative one gives
     * up the blocks on the path of failure, and more only in repairs of blocks that had been relied upon.
     */
    method IsValueFullyAvailable(b: nat, depth: nat, ghost stack: set<nat>) returns (r: bool, ghost path: seq<nat>)
      requires Valid(stack) && b < |g.preds| && depth <= maxDepth + 1
      modifies `state
      ensures Valid(stack)
      ensures r ==> Relied(b, state, stack)
      ensures r ==> forall p :: Unexplored(old(state), p, b) ==> !Missing(old(state), p[0])
      ensures !r ==> Cause(old(state), b, path, depth)
      ensures !r && depth <= maxDepth ==> b in state && state[b] == 0
      ensures depth > maxDepth ==> !r && state == old(state)
      ensures depth <= maxDepth && b in old(state) ==> r == (old(state)[b] != 0)
      ensures depth <= maxDepth && b in old(state) ==>
        state == if old(state)[b] == 2 then old(state)[b := 3] else old(state)
      ensures Effect(old(state), state, b, path, r)
      decreases maxDepth + 1 - depth
    {
      hide Consistent, Supported, Cfg.Valid, Cause, Effect, OnCycle, Unexplored;
      path := [b];
      Facts(b, state, stack);
      CauseAlone(state, b, depth);
      EffectAlone(state, b, true);
      EffectAlone(state, b, false);
      if depth > maxDepth { return false, path; }
      if b in state {
        if state[b] != 0 { KnownAnswer(state, b); }
        if state[b] == 2 { Relying(b, state, stack); state := state[b := 3]; }
        return state[b] != 0, path;
      }
      Entered(b, state, stack);
      state := state[b := 2];
      ghost var stack' := stack + {b};
      var ok := g.preds[b] != [];
      var i := 0;
      while ok && i < |g.preds[b]|
        invariant i <= |g.preds[b]| && Valid(stack') && b in state && state[b] in {0, 2, 3}
        invariant ok ==> g.preds[b] != [] && state[b] >= 2
        invariant ok ==> forall j :: 0 <= j < i ==> Relied(g.preds[b][j], state, stack')
        invariant state[b] == 3 ==> OnCycle(old(state), b)
        invariant Effect(old(state), state, b, path, ok)
        invariant !ok ==> Cause(old(state), b, path, depth) && b in path
        invariant ok ==> path == [b]
      {
        ghost var q, s := [], state;
        PredInRange(b, i);
        ok, q := IsValueFullyAvailable(g.preds[b][i], depth + 1, stack');
        EffectOn(old(state), s, state, b, g.preds[b][i], q, ok);
        if !ok {
          path := q + [b];
          CauseOn(old(state), s, b, g.preds[b][i], q, depth);
        } else {
          RelyLonger(s, state, stack', g.preds[b][..i], g.preds[b][i], q);
        }
        Facts(b, state, stack');
        i := i + 1;
      }
      if ok {
        Completed(b, state, stack);
        NoneMissing(old(state), state, stack, b);
        return true, path;
      }
      if state[b] == 2 {
        Dropped(b, state, stack');
        EffectDropped(old(state), state, b, path);
        state := state[b := 0];
      } else {
        ghost var s := state;
        Repair(b, stack');
        EffectRepaired(old(state), s, state, b, path);
      }
      Failed(b, state, stack);
      return false, path;
    }

    lemma CauseAlone(s: map<nat, int>, b: nat, depth: nat)
      requires b < |g.preds|
      ensures depth == maxDepth + 1 || Missing(s, b) ==> Cause(s, b, [b], depth)
    {
    }
    // ----- the map stays consistent -----

    lemma Facts(b: nat, s: map<nat, int>, stack: set<nat>)
      requires Consistent(s, stack, [])
      ensures b in s ==> 0 <= s[b] <= 3 && (s[b] == 1 ==> b !in stack)
      ensures b !in s ==> b !in avail && b !in unavail && b !in stack
      ensures b in stack ==> b in s && b !in avail && b !in unavail
    {
    }

    lemma PredInRange(b: nat, i: nat)
      requires g.Valid() && b < |g.preds| && i < |g.preds[b]|
      ensures g.preds[b][i] < |g.preds| && g.preds[b][i] in g.preds[b]
    {
    }

    /** A block with an entry is answered by it: no unexplored path goes on behind it. */
    lemma KnownAnswer(s: map<nat, int>, b: nat)
      requires b in s && s[b] != 0
      ensures forall p :: Unexplored(s, p, b) ==> !Missing(s, p[0])
    {
    }

    lemma EffectAlone(s: map<nat, int>, b: nat, r: bool)
      requires b < |g.preds|
      ensures Effect(s, s, b, [b], r)
      ensures b in s && s[b] == 2 ==> Effect(s, s[b := 3], b, [b], r)
      ensures b !in s ==> Effect(s, s[b := 2], b, [b], r)
    {
      assert Unexplored(s, [b], b) && [b][0] == b;
      assert Asked(s, b, b);
    }

    lemma Relying(b: nat, s: map<nat, int>, stack: set<nat>)
      requires g.Valid() && Consistent(s, stack, []) && b in s && s[b] == 2
      ensures Consistent(s[b := 3], stack, [])
    {
      forall x | x in s && s[x] != 0 && x !in avail && x !in stack ensures Supported(x, s[b := 3], stack) {
        assert Supported(x, s, stack);
      }
    }

    lemma Entered(b: nat, s: map<nat, int>, stack: set<nat>)
      requires g.Valid() && Consistent(s, stack, []) && b !in s && b < |g.preds|
      ensures Consistent(s[b := 2], stack + {b}, [])
    {
      forall x | x in s && s[x] != 0 && x !in avail && x !in stack ensures Supported(x, s[b := 2], stack + {b}) {
        assert Supported(x, s, stack);
      }
    }

    /** Nothing has relied on a block that is only speculated to be available. */
    lemma Dropped(b: nat, s: map<nat, int>, stack: set<nat>)
      requires g.Valid() && Consistent(s, stack, []) && b in stack && s[b] == 2
      ensures Consistent(s[b := 0], stack, [])
    {
      forall x | x in s && x != b && s[x] != 0 && x !in avail && x !in stack ensures Supported(x, s[b := 0], stack) {
        assert Supported(x, s, stack);
      }
    }

    lemma Failed(b: nat, s: map<nat, int>, stack: set<nat>)
      requires g.Valid() && Consistent(s, stack + {b}, []) && b in s && s[b] == 0
      ensures Consistent(s, stack, [])
    {
      forall x | x in s && s[x] != 0 && x !in avail && x !in stack ensures Supported(x, s, stack) {
        assert Supported(x, s, stack + {b});
      }
    }

    /** Giving up one more block endangers only its successors. */
    lemma Repaired(b: nat, s: map<nat, int>, stack: set<nat>, todo: seq<nat>)
      requires g.Valid() && Consistent(s, stack, todo + [b]) && b < |g.preds|
      ensures Consistent(s[b := 0], stack, todo + g.succs[b])
      ensures b in s && s[b] == 0 ==> Consistent(s, stack, todo)
      ensures b !in s ==> Consistent(s[b := 0], stack, todo)
    {
      var s' := s[b := 0];
      forall x | x in s' && s'[x] != 0 && x !in avail && x !in stack && x !in todo + g.succs[b]
        ensures Supported(x, s', stack)
      {
        assert Supported(x, s, stack);
      }
      if b !in s {
        forall x | x in s' && s'[x] != 0 && x !in avail && x !in stack && x !in todo ensures Supported(x, s', stack) {
          assert Supported(x, s, stack);
        }
      }
    }

    // ----- the effect of one more step -----

    /** What is unexplored once more is known was unexplored before. */
    lemma UnexploredOn(s: map<nat, int>, s1: map<nat, int>, a: seq<nat>, p: nat, b: nat)
      requires g.Valid() && b < |g.preds| && p in g.preds[b] && b !in s && s.Keys <= s1.Keys && Unexplored(s1, a, p)
      ensures Unexplored(s, a + [b], b)
    {
      var c := a + [b];
      assert forall i :: 0 <= i < |a| ==> c[i] == a[i];
    }

    lemma AskedOn(s: map<nat, int>, s1: map<nat, int>, x: nat, p: nat, b: nat)
      requires g.Valid() && b < |g.preds| && p in g.preds[b] && b !in s && s.Keys <= s1.Keys && Asked(s1, x, p)
      ensures Asked(s, x, b) && (x == b ==> OnCycle(s, b))
    {
      var a :| Unexplored(s1, a, p) && a[0] == x;
      UnexploredOn(s, s1, a, p, b);
      assert (a + [b])[0] == x;
    }

    lemma OnCycleOn(s: map<nat, int>, s1: map<nat, int>, y: nat)
      requires s.Keys <= s1.Keys && OnCycle(s1, y)
      ensures OnCycle(s, y)
    {
      var c :| |c| > 1 && Unexplored(s1, c, y) && c[0] == y;
      assert Unexplored(s, c, y);
    }

    lemma UndoneOn(s: map<nat, int>, s1: map<nat, int>, s2: map<nat, int>, path: seq<nat>, more: seq<nat>, x: nat)
      requires Undone(s1, s2, path, x)
      requires forall y :: y in s ==> y in s1 && (s1[y] != 0 ==> s[y] != 0)
      ensures Undone(s, s2, path + more, x)
    {
      hide OnCycle;
      var q :| q != [] && q[0] in path && OnCycle(s1, q[0]) && q[|q| - 1] == x && g.IsPath(q)
        && forall i :: 0 <= i < |q| ==> GivenUp(s1, s2, q[i]);
      OnCycleOn(s, s1, q[0]);
      assert q[0] in path + more;
    }

    /** What was given up stays so while nothing is taken back. */
    lemma UndoneStays(s: map<nat, int>, s1: map<nat, int>, s2: map<nat, int>, path: seq<nat>, x: nat)
      requires Undone(s, s1, path, x)
      requires forall y :: y in s1 && s1[y] == 0 ==> y in s2 && s2[y] == 0
      ensures Undone(s, s2, path, x)
    {
      hide OnCycle;
    }

    /** The effects of searching some predecessors, and of the search for one more. */
    lemma EffectOn(s: map<nat, int>, s1: map<nat, int>, s2: map<nat, int>, b: nat, p: nat, q: seq<nat>, r: bool)
      requires g.Valid() && b < |g.preds| && p in g.preds[b] && b !in s && b in s1 && s1[b] in {2, 3}
      requires Effect(s, s1, b, [b], true) && Effect(s1, s2, p, q, r) && (s1[b] == 3 ==> OnCycle(s, b))
      ensures Effect(s, s2, b, if r then [b] else q + [b], r)
      ensures b in s2 && s2[b] in {0, 2, 3} && (r ==> s2[b] != 0) && (s2[b] == 3 ==> OnCycle(s, b))
    {
      var path := if r then [b] else q + [b];
      hide Cfg.Valid, OnCycle, Asked, Undone;
      assert OldEntry(s1, s2, p, q, r, b);
      forall x | x in s ensures OldEntry(s, s2, b, path, r, x) {
        assert OldEntry(s, s1, b, [b], true, x) && OldEntry(s1, s2, p, q, r, x);
        if s1[x] != s2[x] { ChangeOn(s, s1, s2, b, p, q, r, x); }
      }
      forall x | x in s2 && x !in s ensures NewEntry(s, s2, b, path, r, x) {
        if x in s1 {
          assert NewEntry(s, s1, b, [b], true, x) && OldEntry(s1, s2, p, q, r, x);
        } else {
          assert NewEntry(s1, s2, p, q, r, x);
        }
        if x !in s1 || s1[x] != s2[x] { ChangeOn(s, s1, s2, b, p, q, r, x); }
      }
      if s2[b] == 3 && s1[b] == 2 { AskedOn(s, s1, b, p, b); }
    }

    lemma ChangeOn(s: map<nat, int>, s1: map<nat, int>, s2: map<nat, int>, b: nat, p: nat, q: seq<nat>, r: bool, x: nat)
      requires g.Valid() && b < |g.preds| && p in g.preds[b] && b !in s && Effect(s, s1, b, [b], true)
      ensures Asked(s1, x, p) ==> Asked(s, x, b)
      ensures Undone(s1, s2, q, x) ==> Undone(s, s2, q + [b], x)
    {
      hide Cfg.Valid, OnCycle, Asked, Undone;
      forall y | y in s ensures y in s1 && (s1[y] != 0 ==> s[y] != 0) { assert OldEntry(s, s1, b, [b], true, y); }
      if Asked(s1, x, p) { AskedOn(s, s1, x, p, b); }
      if Undone(s1, s2, q, x) { UndoneOn(s, s1, s2, q, [b], x); }
    }

    /** The reason for a failed predecessor is one for the block. */
    lemma CauseOn(s: map<nat, int>, s1: map<nat, int>, b: nat, p: nat, q: seq<nat>, depth: nat)
      requires g.Valid() && b < |g.preds| && p in g.preds[b] && b !in s && b in s1
      requires Effect(s, s1, b, [b], true) && Cause(s1, p, q, depth + 1)
      ensures Cause(s, b, q + [b], depth)
    {
      hide Asked, Undone;
      assert forall x :: x in s ==> OldEntry(s, s1, b, [b], true, x);
      assert forall x :: x in s1 && x !in s ==> NewEntry(s, s1, b, [b], true, x);
      UnexploredOn(s, s1, q, p, b);
      var path := q + [b];
      assert forall i :: 0 <= i < |q| ==> path[i] == q[i];
    }

    lemma EffectDropped(s: map<nat, int>, s1: map<nat, int>, b: nat, path: seq<nat>)
      requires Effect(s, s1, b, path, false) && b in s1 && b !in s && b in path
      ensures Effect(s, s1[b := 0], b, path, false)
    {
      hide Asked, Undone;
      var s2 := s1[b := 0];
      forall x | x in s ensures OldEntry(s, s2, b, path, false, x) {
        assert OldEntry(s, s1, b, path, false, x);
        if Undone(s, s1, path, x) { UndoneStays(s, s1, s2, path, x); }
      }
      forall x | x in s2 && x !in s ensures NewEntry(s, s2, b, path, false, x) {
        assert NewEntry(s, s1, b, path, false, x);
        if Undone(s, s1, path, x) { UndoneStays(s, s1, s2, path, x); }
      }
    }

    lemma EffectRepaired(s: map<nat, int>, s1: map<nat, int>, s2: map<nat, int>, b: nat, path: seq<nat>)
      requires g.Valid() && Effect(s, s1, b, path, false) && b in s1 && b in path && (s1[b] != 0 ==> OnCycle(s, b))
      requires RepairedMap(s1, b, s2)
      ensures Effect(s, s2, b, path, false)
    {
      hide Cfg.Valid, Asked, Undone, OnCycle, LiveReach, AtRisk;
      forall x | x in s2 ensures (x in s1 && s1[x] == s2[x]) || Undone(s, s2, path, x) {
        if x in s1 {
          if LiveReach(s1, b, x) { LiveUndone(s, s1, s2, b, path, x); }
        } else {
          RiskUndone(s, s1, s2, b, path, x);
        }
      }
      forall x | x in s1 && Undone(s, s1, path, x) ensures Undone(s, s2, path, x) { UndoneStays(s, s1, s2, path, x); }
      forall x | x in s ensures OldEntry(s, s2, b, path, false, x) {
        assert OldEntry(s, s1, b, path, false, x);
      }
      forall x | x in s2 && x !in s ensures NewEntry(s, s2, b, path, false, x) {
        if x in s1 { assert NewEntry(s, s1, b, path, false, x); }
      }
    }

    lemma LiveUndone(s: map<nat, int>, s1: map<nat, int>, s2: map<nat, int>, b: nat, path: seq<nat>, x: nat)
      requires Effect(s, s1, b, path, false) && b in s1 && b in path && (s1[b] != 0 ==> OnCycle(s, b))
      requires RepairedMap(s1, b, s2) && LiveReach(s1, b, x)
      ensures Undone(s, s2, path, x)
    {
      hide Asked, OnCycle, AtRisk;
      var q :| LivePath(s1, q, b) && q[|q| - 1] == x;
      forall i | 0 <= i < |q| ensures GivenUp(s, s2, q[i]) {
        assert LivePath(s1, q[..i + 1], b);
        assert LiveReach(s1, b, q[i]);
        if q[i] in s { assert OldEntry(s, s1, b, path, false, q[i]); }
      }
    }

    lemma RiskUndone(s: map<nat, int>, s1: map<nat, int>, s2: map<nat, int>, b: nat, path: seq<nat>, x: nat)
      requires g.Valid() && Effect(s, s1, b, path, false) && b in s1 && b in path && (s1[b] != 0 ==> OnCycle(s, b))
      requires RepairedMap(s1, b, s2) && x !in s1 && x in s2
      ensures Undone(s, s2, path, x)
    {
      hide Cfg.Valid, Asked, OnCycle, LiveReach, Undone;
      var z: nat :| LiveReach(s1, b, z) && z < |g.succs| && x in g.succs[z];
      LiveUndone(s, s1, s2, b, path, z);
      KeysKept(s, s1, b, path);
      SuccHasPred(z, x);
      UndoneNext(s, s2, path, z, x);
    }

    lemma KeysKept(s: map<nat, int>, s1: map<nat, int>, b: nat, path: seq<nat>)
      requires Effect(s, s1, b, path, false)
      ensures forall x :: x in s ==> x in s1
    {
      hide Asked, Undone;
      forall x | x in s ensures x in s1 { assert OldEntry(s, s1, b, path, false, x); }
    }

    lemma SuccHasPred(z: nat, x: nat)
      requires g.Valid() && z < |g.succs| && x in g.succs[z]
      ensures x < |g.preds| && z in g.preds[x]
    {
    }

    lemma UndoneNext(s: map<nat, int>, s2: map<nat, int>, path: seq<nat>, z: nat, x: nat)
      requires Undone(s, s2, path, z) && x < |g.preds| && z in g.preds[x] && GivenUp(s, s2, x)
      ensures Undone(s, s2, path, x)
    {
      hide OnCycle, GivenUp;
      var q :| q != [] && q[0] in path && OnCycle(s, q[0]) && q[|q| - 1] == z && g.IsPath(q)
        && forall i :: 0 <= i < |q| ==> GivenUp(s, s2, q[i]);
      var q' := q + [x];
      assert forall i :: 0 <= i < |q| ==> q'[i] == q[i];
      assert q'[0] in path && g.IsPath(q');
    }

    /** After a positive answer, no unexplored path leads to the block from one that lacks the value. */
    lemma NoneMissing(s: map<nat, int>, s': map<nat, int>, stack: set<nat>, b: nat)
      requires Consistent(s, stack, []) && Consistent(s', stack, []) && Effect(s, s', b, [b], true)
      requires b in s' && s'[b] != 0
      ensures forall p :: Unexplored(s, p, b) ==> !Missing(s, p[0])
    {
      hide Consistent, Effect, Missing;
      forall p | Unexplored(s, p, b) ensures !Missing(s, p[0]) { NotMissing(s, s', stack, b, p); }
    }

    lemma {:induction false} NotMissing(s: map<nat, int>, s': map<nat, int>, stack: set<nat>, b: nat, p: seq<nat>)
      requires Consistent(s, stack, []) && Consistent(s', stack, []) && p != [] && Unexplored(s, p, p[|p| - 1]) && Effect(s, s', b, [b], true)
      requires p[|p| - 1] in s' && s'[p[|p| - 1]] != 0
      ensures !Missing(s, p[0])
      decreases |p|
    {
      var x := p[|p| - 1];
      if x !in s {
        assert Supported(x, s', stack);
        if |p| > 1 {
          var q := p[..|p| - 1];
          assert q[|q| - 1] in g.preds[x];
          NotMissing(s, s', stack, b, q);
        }
      } else {
        assert |p| == 1;
        assert OldEntry(s, s', b, [b], true, x);
      }
    }

    lemma RelyLonger(s: map<nat, int>, s': map<nat, int>, stack: set<nat>, ps: seq<nat>, b: nat, path: seq<nat>)
      requires Effect(s, s', b, path, true)
      requires forall j :: 0 <= j < |ps| ==> Relied(ps[j], s, stack)
      ensures forall j :: 0 <= j < |ps| ==> Relied(ps[j], s', stack)
    {
      hide Asked;
      forall j | 0 <= j < |ps| ensures Relied(ps[j], s', stack) { assert OldEntry(s, s', b, path, true, ps[j]); }
    }

    // ----- steps of the search -----

    /** A block whose predecessors are all relied upon may leave the stack. */
    lemma Completed(b: nat, s: map<nat, int>, stack: set<nat>)
      requires g.Valid() && avail !! unavail && Consistent(s, stack + {b}, []) && b in s && b !in stack
      requires forall j :: 0 <= j < |g.preds[b]| ==> Relied(g.preds[b][j], s, stack + {b})
      requires g.preds[b] != []
      ensures Consistent(s, stack, [])
    {
      forall x | x in s && s[x] != 0 && x !in avail && x !in stack ensures Supported(x, s, stack) {
        if x != b { assert Supported(x, s, stack + {b}); }
      }
    }

    // ----- the repair -----

    /** Through blocks taken to be available, successors lead along `q` from `b`. */
    ghost predicate LivePath(s: map<nat, int>, q: seq<nat>, b: nat) {
      q != [] && q[0] == b && g.IsPath(q) && forall i :: 0 <= i < |q| ==> q[i] in s && s[q[i]] != 0
    }

    ghost predicate LiveReach(s: map<nat, int>, b: nat, x: nat) {
      exists q :: LivePath(s, q, b) && q[|q| - 1] == x
    }

    /** The repair comes to the block: it is `b`, or follows a block that is given up. */
    ghost predicate AtRisk(s: map<nat, int>, b: nat, x: nat) {
      x == b || exists z: nat :: LiveReach(s, b, z) && z < |g.succs| && x in g.succs[z]
    }

    /** What a repair makes of the map. */
    ghost predicate RepairedMap(s: map<nat, int>, b: nat, s': map<nat, int>) {
      && (forall x :: x in s ==> x in s' && s'[x] == if LiveReach(s, b, x) then 0 else s[x])
      && forall x :: x !in s ==> (x in s' <==> AtRisk(s, b, x)) && (x in s' ==> s'[x] == 0)
    }

    /** What every step of a repair keeps. */
    ghost predicate Repairing(s: map<nat, int>, b: nat, s': map<nat, int>, todo: seq<nat>) {
      && (forall x :: x in s ==> x in s' && (s'[x] == s[x] || (s'[x] == 0 && LiveReach(s, b, x))))
      && (forall x :: x in s' && x !in s ==> s'[x] == 0 && AtRisk(s, b, x))
      && (forall x :: x in todo ==> x < |g.preds| && AtRisk(s, b, x))
      && (b in todo || (b in s' && s'[b] == 0))
      && forall z, c :: z in s && s[z] != 0 && s'[z] == 0 && z < |g.succs| && c in g.succs[z] ==> c in todo || (c in s' && s'[c] == 0)
    }

    lemma RepairStarts(s: map<nat, int>, b: nat)
      requires b < |g.preds|
      ensures Repairing(s, b, s, [b])
    {
    }

    lemma LiveNext(s: map<nat, int>, b: nat, x: nat)
      requires g.Valid() && AtRisk(s, b, x) && x < |g.preds| && x in s && s[x] != 0
      ensures LiveReach(s, b, x)
      ensures forall c :: c in g.succs[x] ==> AtRisk(s, b, c)
    {
      if x == b {
        assert LivePath(s, [b], b);
      } else {
        var z: nat :| LiveReach(s, b, z) && z < |g.succs| && x in g.succs[z];
        var q :| LivePath(s, q, b) && q[|q| - 1] == z;
        var q' := q + [x];
        assert forall i :: 0 <= i < |q| ==> q'[i] == q[i];
        assert LivePath(s, q', b);
      }
    }

    /** The next block on the worklist is given up, if it was taken to be available, and endangers its successors. */
    lemma RepairNext(s: map<nat, int>, b: nat, s': map<nat, int>, todo: seq<nat>, x: nat)
      requires g.Valid() && Repairing(s, b, s', todo + [x])
      ensures x < |g.preds|
      ensures if x in s' && s'[x] == 0 then Repairing(s, b, s', todo)
        else Repairing(s, b, s'[x := 0], if x in s' then todo + g.succs[x] else todo)
    {
      hide LiveReach, AtRisk;
      assert x in todo + [x];
      forall y | y in todo ensures y in todo + [x] {}
      if x in s' && s'[x] != 0 { LiveNext(s, b, x); }
    }

    lemma {:induction false} RepairReaches(s: map<nat, int>, b: nat, s': map<nat, int>, q: seq<nat>)
      requires g.Valid() && Repairing(s, b, s', []) && LivePath(s, q, b)
      ensures q[|q| - 1] in s' && s'[q[|q| - 1]] == 0
      decreases |q|
    {
      if |q| > 1 {
        var q' := q[..|q| - 1];
        assert LivePath(s, q', b);
        RepairReaches(s, b, s', q');
        assert q[|q| - 2] in g.preds[q[|q| - 1]];
        var i :| 0 <= i < |g.preds[q[|q| - 1]]| && g.preds[q[|q| - 1]][i] == q[|q| - 2];
      }
    }

    lemma RepairEnds(s: map<nat, int>, b: nat, s': map<nat, int>)
      requires g.Valid() && Repairing(s, b, s', [])
      ensures RepairedMap(s, b, s') && b in s' && s'[b] == 0
    {
      hide Cfg.Valid, Cfg.IsPath;
      forall x | LiveReach(s, b, x) ensures x in s && s[x] != 0 && x in s' && s'[x] == 0 {
        var q :| LivePath(s, q, b) && q[|q| - 1] == x;
        RepairReaches(s, b, s', q);
      }
    }

    static function Live(s: map<nat, int>): set<nat> { set x | x in s && s[x] != 0 }

    lemma StartRepair(b: nat, s: map<nat, int>, stack: set<nat>)
      requires Consistent(s, stack, [])
      ensures Consistent(s, stack, [b])
    {
    }

    lemma SuccsInRange(b: nat)
      requires g.Valid() && b < |g.preds|
      ensures b < |g.succs| && forall i :: 0 <= i < |g.succs[b]| ==> g.succs[b][i] < |g.preds|
    {
    }

    /**
     * Gives up exactly the block and the blocks that successors lead to from it through blocks taken to be available;
     * all other known blocks keep their entry, and an unknown successor of a block given up is entered as not available.
     */
    method Repair(b: nat, ghost stack: set<nat>)
      requires Valid(stack) && b < |g.preds|
      modifies `state
      ensures Valid(stack) && b in state && state[b] == 0
      ensures RepairedMap(old(state), b, state)
    {
      hide Supported, Repairing, Cfg.Valid, RepairedMap;
      var worklist: seq<nat> := [b];
      StartRepair(b, state, stack);
      RepairStarts(state, b);
      hide Consistent;
      while worklist != []
        invariant Consistent(state, stack, worklist)
        invariant Repairing(old(state), b, state, worklist)
        decreases Live(state), |worklist|
      {
        var entry := worklist[|worklist| - 1];
        ghost var live := Live(state);
        assert worklist == worklist[..|worklist| - 1] + [entry];
        worklist := worklist[..|worklist| - 1];
        RepairNext(old(state), b, state, worklist, entry);
        Repaired(entry, state, stack, worklist);
        if entry !in state {
          state := state[entry := 0];
          assert Live(state) == live;
        } else if state[entry] != 0 {
          assert entry in live;
          SuccsInRange(entry);
          state := state[entry := 0];
          worklist := worklist + g.succs[entry];
        }
      }
      RepairEnds(old(state), b, state);
    }

    /** `path` leads to `b` past no available block, from a block that does not have the value;
        or it is longer than the search is allowed to go. */
    ghost predicate Blocked(b: nat, path: seq<nat>) {
      && path != [] && path[|path| - 1] == b && g.IsPath(path)
      && (forall i :: 1 <= i < |path| ==> path[i] !in avail)
      && (path[0] in unavail
          || (path[0] !in avail && g.preds[path[0]] == [])
          || (|path| == maxDepth + 2 && forall i, j :: 1 <= i < j < |path| ==> path[i] != path[j]))
    }

    lemma BlockedIfFresh(b: nat, path: seq<nat>, s: map<nat, int>)
      requires Consistent(s, {}, []) && (forall x :: x in s && s[x] == 0 ==> x in unavail) && Cause(s, b, path, 0)
      ensures Blocked(b, path)
    {
      hide Supported;
    }

    /** With a limit of as many blocks as there are, no search is cut off. */
    lemma NotCut(s: map<nat, int>, b: nat, path: seq<nat>)
      requires Cause(s, b, path, 0) && maxDepth >= |g.preds|
      ensures Unexplored(s, path, b) && Missing(s, path[0])
    {
      if !Missing(s, path[0]) { Pigeonhole(path[1..], |g.preds|); }
    }

    lemma {:induction false} Pigeonhole(p: seq<nat>, n: nat)
      requires forall i :: 0 <= i < |p| ==> p[i] < n
      requires forall i, j :: 0 <= i < j < |p| ==> p[i] != p[j]
      ensures |p| <= n
      decreases n
    {
      assert p != [] ==> p[0] < n;
      if n > 0 {
        if i :| 0 <= i < |p| && p[i] == n - 1 {
          Pigeonhole(p[..i] + p[i + 1..], n - 1);
        } else {
          Pigeonhole(p, n - 1);
        }
      }
    }

    lemma FreshStays(s: map<nat, int>, s': map<nat, int>, b: nat, path: seq<nat>, x: nat)
      requires Effect(s, s', b, path, true) && x in s' && (x in s ==> s[x] != 0)
      ensures s'[x] != 0
    {
      hide Asked;
      if x in s { assert OldEntry(s, s', b, path, true, x); } else { assert NewEntry(s, s', b, path, true, x); }
    }

    /** The path leads from a block without predecessors to `b`. */
    ghost predicate FromStart(p: seq<nat>, b: nat) {
      p != [] && p[0] < |g.preds| && g.preds[p[0]] == [] && p[|p| - 1] == b
    }

    /**
     * A query as the pass makes it, one of a sequence that shares the map. If the answer is yes, the value is
     * available on every path from a block without predecessors to `b`; the first no is justified. A known block is
     * answered by its entry, and any other by whether a block without the value leads to it past no known block;
     * what the entries are for the next query is said by `Effect`.
     */
    method Query(b: nat) returns (r: bool, ghost path: seq<nat>)
      requires Valid({}) && b < |g.preds|
      modifies `state
      ensures Valid({})
      ensures b in state && (r <==> state[b] != 0)
      ensures r ==>
        forall p: seq<nat> :: g.IsPath(p) && FromStart(p, b) ==> Provided(avail, unavail, p)
      ensures !r && old(Fresh()) ==> Blocked(b, path)
      ensures r && old(Fresh()) ==> Fresh()
      ensures b in old(state) ==> r == (old(state)[b] != 0)
      ensures r ==> forall p :: Unexplored(old(state), p, b) ==> !Missing(old(state), p[0])
      ensures !r ==> Cause(old(state), b, path, 0)
      ensures maxDepth >= |g.preds| ==> (r <==> forall p :: Unexplored(old(state), p, b) ==> !Missing(old(state), p[0]))
      ensures Effect(old(state), state, b, path, r)
    {
      r, path := IsValueFullyAvailable(b, 0, {});
      if !r && maxDepth >= |g.preds| { NotCut(old(state), b, path); }
      hide Consistent, Cause, Effect, Unexplored, Missing, Provided;
      if !r && old(Fresh()) { BlockedIfFresh(b, path, old(state)); }
      if r {
        forall x | x in state && (x in old(state) ==> old(state)[x] != 0) ensures state[x] != 0 {
          FreshStays(old(state), state, b, path, x);
        }
        forall p: seq<nat> | g.IsPath(p) && FromStart(p, b)
          ensures Provided(avail, unavail, p)
        {
          AvailableOnPath(state, p);
        }
      }
    }

    /** In a consistent map no path slips past the available blocks. */
    lemma {:induction false} AvailableOnPath(s: map<nat, int>, p: seq<nat>)
      requires avail !! unavail && Consistent(s, {}, [])
      requires g.IsPath(p) && p != [] && FromStart(p, p[|p| - 1])
      requires p[|p| - 1] in s && s[p[|p| - 1]] != 0
      ensures Provided(avail, unavail, p)
    {
      var b := p[|p| - 1];
      if b !in avail {
        assert Supported(b, s, {});
        var q := p[..|p| - 1];
        assert q != [];
        assert q[|q| - 1] in g.preds[b];
        AvailableOnPath(s, q);
        var i :| 0 <= i < |q| && q[i] in avail && forall j :: i <= j < |q| ==> q[j] !in unavail;
        assert p[i] in avail && forall j :: i <= j < |p| ==> p[j] !in unavail;
      } else {
        assert p[|p| - 1] in avail;
      }
    }
  }
}
