/**
 * The pass over one function: every switch on more than eight bits is lowered, and the
 * function still visits the same blocks with the same values in their phis.
 */
module SplitSwitches {
  import opened Words
  import opened Ir
  import opened SwitchCases
  import opened PhiMoves
  import opened SwitchLowering

  // ---- one switch ----

  /** Block `orig` ends in a switch whose edges the phis know, over values of 9 to 64 bits. */
  ghost predicate Lowerable(a: seq<Block>, base: nat, orig: nat) {
    && orig < base <= |a|
    && a[orig].term.Switch? && 8 < a[orig].term.width <= 64
    && a[orig].term.cases != [] && Distinct(a[orig].term.cases, a[orig].term.width)
    && a[orig].term.default < base
    && (forall i :: 0 <= i < |a[orig].term.cases| ==> a[orig].term.cases[i].dest < base)
    && (forall t :: base <= t < |a| ==> a[t].phis == [])
    && forall t, j :: 0 <= t < base && 0 <= j < |a[t].phis| ==> OneEntryPerEdge(a[t].phis[j], a, orig, t)
  }

  /** As many entries as edges, all with the same value, none from a block yet to come. */
  ghost predicate OneEntryPerEdge(phi: Phi, a: seq<Block>, orig: nat, t: nat)
    requires orig < |a| && a[orig].term.Switch?
  {
    && FromBelow(phi, |a|)
    && Count(phi, orig) == Into(a[orig].term.cases, t) + (if a[orig].term.default == t then 1 else 0)
    && OneValue(phi, orig)
  }

  ghost predicate OneValue(phi: Phi, orig: nat) {
    forall i, j :: 0 <= i < |phi| && 0 <= j < |phi| && phi[i].from == orig && phi[j].from == orig ==>
      phi[i].value == phi[j].value
  }

  /** `b` is `a` with the switch of `orig` lowered. */
  ghost predicate Lowered(a: seq<Block>, b: seq<Block>, base: nat, orig: nat)
    requires Lowerable(a, base, orig)
  {
    && |a| < |b| && b[orig].term.Jump?
    && (forall i :: 0 <= i < |a| && i != orig ==> b[i].term == a[i].term)
    && (forall i :: 0 <= i < |a| ==> |b[i].phis| == |a[i].phis|)
    && NewNodes(b, |a|, |b|)
    && (forall t, j :: 0 <= t < base && 0 <= j < |a[t].phis| ==>
          Moved(a[t].phis[j], b[t].phis[j], orig, b, |a|, |b|, t, Count(a[t].phis[j], orig)))
    && (forall t :: 0 <= t < base ==>
          TotalEdges(b, |a|, |b|, t) == Into(a[orig].term.cases, t) + (if a[orig].term.default == t then 1 else 0))
    && forall env: Env :: Value(env, a[orig].term.val) < Pow2(a[orig].term.width) ==> Arrives(a, b, base, orig, env)
  }

  /** Leaving `orig`, control reaches the switch's target from a new block. */
  ghost predicate Arrives(a: seq<Block>, b: seq<Block>, base: nat, orig: nat, env: Env)
    requires orig < |a| && a[orig].term.Switch?
  {
    exists p :: |a| <= p && ArrivesFrom(a, b, base, orig, env, p)
  }

  ghost predicate ArrivesFrom(a: seq<Block>, b: seq<Block>, base: nat, orig: nat, env: Env, p: nat)
    requires orig < |a| && a[orig].term.Switch?
  {
    Transfers(b, base, orig, env,
              Edge(p, SwitchTarget(a[orig].term.cases, a[orig].term.default, Value(env, a[orig].term.val))))
  }

  /** The default's entry moves last, to the new default block `n`. */
  lemma MovedThenDefault(phi: Phi, psi: Phi, orig: nat, b: seq<Block>, n: nat, t: nat, k: nat)
    requires orig < n < |b| && FromBelow(phi, n) && EdgesInto(b[n].term, t) == 1
    requires Moved(phi, psi, orig, b, n + 1, |b|, t, k) && Count(psi, orig) > 0
    ensures Moved(phi, ReplaceFirst(psi, orig, n), orig, b, n, |b|, t, k + 1)
  {
    var chi := ReplaceFirst(psi, orig, n);
    ReplaceFirstEntries(psi, orig, n);
    ReplaceFirstCounts(psi, orig, n, orig);
    CountZero(psi, n);
    forall p | n <= p < |b|
      ensures Count(chi, p) == EdgesInto(b[p].term, t)
    {
      ReplaceFirstCounts(psi, orig, n, p);
    }
  }

  /** A switch target is one of the cases' blocks or the default. */
  lemma {:induction false} DefaultRenamed(cases: seq<Case>, d: nat, n: nat, v: nat)
    requires forall i :: 0 <= i < |cases| ==> cases[i].dest != n
    ensures SwitchTarget(cases, d, v) == if SwitchTarget(cases, n, v) == n then d else SwitchTarget(cases, n, v)
  {
    if cases != [] && cases[0].value != v {
      DefaultRenamed(cases[1..], d, n, v);
    }
  }

  lemma TreeArrives(a: seq<Block>, a2: seq<Block>, b: seq<Block>, base: nat, orig: nat, node: nat, depth: nat,
                    checked: seq<bool>, env: Env)
    requires Lowerable(a, base, orig) && |a| < node < |b| && |a2| == |b|
    requires Decides(a2, node, depth, a[orig].term.cases, |a|, a[orig].term.val, a[orig].term.width, checked)
    requires forall k :: 0 <= k < |checked| ==> !checked[k]
    requires forall i :: 0 <= i < |b| && i != orig ==> b[i].term == a2[i].term
    requires b[orig].term == Jump(node) && b[|a|].term == Jump(a[orig].term.default)
    requires Value(env, a[orig].term.val) < Pow2(a[orig].term.width)
    ensures Arrives(a, b, base, orig, env)
  {
    var n, s := |a|, a[orig].term;
    var v := Value(env, s.val);
    assert Sends(a2, node, depth, s.cases, n, s.val, env, orig);
    FollowExtends(a2, b, n + 1, orig, node, env, depth, depth);
    var e := Follow(b, n + 1, orig, node, env, depth).value;
    FollowedEdge(b, n + 1, orig, node, env, depth);
    DefaultRenamed(s.cases, s.default, n, v);
    TargetAmong(s.cases, n, v);
    FollowOn(b, base, n + 1, orig, node, env, depth, 1);
    var fuel := depth + 1;
    assert Next(b[orig].term, env) == Some(node);
    var p := if e.to == n then n else e.from;
    if e.to == n {
      assert Follow(b, base, n, s.default, env, 0) == Some(Edge(n, s.default));
    }
    assert Follow(b, base, orig, Next(b[orig].term, env).value, env, fuel)
        == Some(Edge(p, SwitchTarget(s.cases, s.default, v)));
    assert ArrivesFrom(a, b, base, orig, env, p);
  }

  method LowerSwitch(f: Function, ghost base: nat, orig: nat)
    requires Lowerable(f.blocks, base, orig)
    modifies f
    ensures Lowered(old(f.blocks), f.blocks, base, orig)
  {
    hide Decides, AllMoved, PhisReady, AllAgree, Distinct, Moved;
    ghost var a := f.blocks;
    var s := f.blocks[orig].term;
    var newDefault := f.Create(Jump(s.default));
    ghost var a1 := f.blocks;
    assert a1[..|a|] == a;
    var bytesChecked := seq((7 + s.width) / 8, _ => false);
    StartReady(a, a1, base, orig, bytesChecked);
    var switchBlock;
    ghost var depth;
    switchBlock, depth := f.SwitchConvert(s.cases, bytesChecked, orig, newDefault, s.val, s.width);
    ghost var a2 := f.blocks;
    f.SetTerminator(orig, Jump(switchBlock));
    f.UpdatePhis(s.default, orig, newDefault);
    LoweredBy(a, a1, a2, f.blocks, base, orig, switchBlock, depth, bytesChecked);
  }

  /** The tree, the new default, the jump to the tree and the default's phis together are the lowered switch. */
  lemma LoweredBy(a: seq<Block>, a1: seq<Block>, a2: seq<Block>, b: seq<Block>, base: nat, orig: nat, node: nat,
                  depth: nat, checked: seq<bool>)
    requires Lowerable(a, base, orig) && a1 == a + [Block([], Jump(a[orig].term.default))]
    requires forall k :: 0 <= k < |checked| ==> !checked[k]
    requires Converted(a1, a2, node, depth, a[orig].term.cases, checked, orig, |a|, a[orig].term.val,
                       a[orig].term.width)
    requires |b| == |a2| && (forall i :: 0 <= i < |b| ==> b[i].term == if i == orig then Jump(node) else a2[i].term)
    requires forall t :: 0 <= t < |b| ==>
               b[t].phis == if t == a[orig].term.default then ReplaceAll(a2[t].phis, orig, |a|) else a2[t].phis
    ensures Lowered(a, b, base, orig)
  {
    hide Decides, AllMoved, Distinct, Moved;
    assert a1[..|a|] == a;
    var s := a[orig].term;
    FinallyMoved(a, a1, a2, b, base, orig, |a|);
    forall t | 0 <= t < base
      ensures TotalEdges(b, |a|, |b|, t) == Into(s.cases, t) + (if s.default == t then 1 else 0)
    {
      TotalEdgesAgree(a2, b, |a1|, |a2|, t);
    }
    forall env: Env | Value(env, s.val) < Pow2(s.width)
      ensures Arrives(a, b, base, orig, env)
    {
      TreeArrives(a, a2, b, base, orig, node, depth, checked, env);
    }
  }

  lemma StartReady(a: seq<Block>, a1: seq<Block>, base: nat, orig: nat, checked: seq<bool>)
    requires Lowerable(a, base, orig) && |a1| == |a| + 1 && a1[..|a|] == a
    requires |checked| == (7 + a[orig].term.width) / 8 && forall k :: 0 <= k < |checked| ==> !checked[k]
    ensures Convertible(a1, a[orig].term.cases, checked, orig, |a|, a[orig].term.width)
  {
    SomeUnchecked(checked, 0);
    forall t | 0 <= t < |a|
      ensures a1[t] == a[t]
    {
      assert a1[t] == a1[..|a|][t];
    }
    forall t, j | 0 <= t < |a| && 0 <= j < |a1[t].phis|
      ensures FromBelow(a1[t].phis[j], |a1|) && Count(a1[t].phis[j], orig) >= Into(a[orig].term.cases, t)
    {
      assert OneEntryPerEdge(a[t].phis[j], a, orig, t);
    }
  }

  lemma FinallyMoved(a: seq<Block>, a1: seq<Block>, a2: seq<Block>, b: seq<Block>, base: nat, orig: nat, n: nat)
    requires Lowerable(a, base, orig) && n == |a| && |a1| == |a| + 1 && a1[..|a|] == a
    requires a1[n].term == Jump(a[orig].term.default)
    requires Kept(a1, a2) && AllMoved(a1, a2, orig, n, |a1|, |a2|, a[orig].term.cases)
    requires |b| == |a2| && forall i :: 0 <= i < |b| && i != orig ==> b[i].term == a2[i].term
    requires forall t :: 0 <= t < |b| ==>
               b[t].phis == if t == a[orig].term.default then ReplaceAll(a2[t].phis, orig, n) else a2[t].phis
    ensures forall t :: 0 <= t < base ==> |b[t].phis| == |a[t].phis|
    ensures forall t, j :: 0 <= t < base && 0 <= j < |a[t].phis| ==>
              Moved(a[t].phis[j], b[t].phis[j], orig, b, |a|, |b|, t, Count(a[t].phis[j], orig))
  {
    forall t | 0 <= t < base
      ensures |b[t].phis| == |a[t].phis|
    {
      assert a1[t] == a1[..|a|][t] == a[t];
    }
    forall t, j | 0 <= t < base && 0 <= j < |a[t].phis|
      ensures Moved(a[t].phis[j], b[t].phis[j], orig, b, |a|, |b|, t, Count(a[t].phis[j], orig))
    {
      assert a1[t] == a1[..|a|][t] == a[t];
      var phi, psi, k := a[t].phis[j], a2[t].phis[j], Into(a[orig].term.cases, t);
      assert OneEntryPerEdge(phi, a, orig, t);
      MovedAgree(phi, psi, orig, a2, b, |a1|, |b|, t, k);
      if t == a[orig].term.default {
        MovedThenDefault(phi, psi, orig, b, n, t, k);
      } else {
        MovedNone(phi, orig, b, n, t);
        MovedTwice(phi, phi, psi, orig, b, n, n + 1, |b|, t, 0, k);
      }
    }
  }

  /** After the lowering no phi mentions `orig`, and every new edge into a block has one entry
      there, with the value that the edges from `orig` had. */
  lemma EntriesConserved(a: seq<Block>, b: seq<Block>, base: nat, orig: nat, t: nat, j: nat)
    requires Lowerable(a, base, orig) && Lowered(a, b, base, orig) && t < base && j < |a[t].phis|
    ensures Count(b[t].phis[j], orig) == 0
    ensures forall p :: |a| <= p < |b| ==> Count(b[t].phis[j], p) == EdgesInto(b[p].term, t)
    ensures forall p :: |a| <= p < |b| && EdgesInto(b[p].term, t) > 0 ==>
              PhiValue(b[t].phis[j], p) == PhiValue(a[t].phis[j], orig)
    ensures forall p :: 0 <= p < |a| && p != orig ==>
              Count(b[t].phis[j], p) == Count(a[t].phis[j], p) && PhiValue(b[t].phis[j], p) == PhiValue(a[t].phis[j], p)
  {
    var phi, psi := a[t].phis[j], b[t].phis[j];
    assert Moved(phi, psi, orig, b, |a|, |b|, t, Count(phi, orig)) && OneEntryPerEdge(phi, a, orig, t);
    forall p | |a| <= p < |b| && EdgesInto(b[p].term, t) > 0
      ensures PhiValue(psi, p) == PhiValue(phi, orig)
    {
      MovedValue(phi, psi, orig, b, |a|, |b|, t, Count(phi, orig), p);
    }
    forall p | 0 <= p < |a| && p != orig
      ensures Count(psi, p) == Count(phi, p) && PhiValue(psi, p) == PhiValue(phi, p)
    {
      RewiredKeeps(phi, psi, orig, |a|, |b|, p);
    }
  }

  // ---- the whole function ----

  predicate Wide(t: Terminator) { t.Switch? && t.cases != [] && t.width > 8 }

  /** Branches stay within the function, and each wide switch can be lowered. */
  ghost predicate WellFormed(a: seq<Block>) {
    && (forall b, env: Env :: 0 <= b < |a| && Next(a[b].term, env).Some? ==> Next(a[b].term, env).value < |a|)
    && (forall b :: 0 <= b < |a| && Wide(a[b].term) ==> Lowerable(a, |a|, b))
  }

  /** The condition of every wide switch has a value of its width. */
  ghost predicate Typed(a: seq<Block>, env: Env) {
    forall b :: 0 <= b < |a| && Wide(a[b].term) ==> Value(env, a[b].term.val) < Pow2(a[b].term.width)
  }

  /** Leaving `blk` for `t`, the function `b` enters it from `p`, and each phi finds there what it found in `a`. */
  ghost predicate ComesFrom(a: seq<Block>, b: seq<Block>, blk: nat, env: Env, t: nat, p: nat)
    requires t < |a| <= |b|
  {
    && (p == blk || |a| <= p < |b|)
    && Transfers(b, |a|, blk, env, Edge(p, t))
    && |b[t].phis| == |a[t].phis|
    && forall j :: 0 <= j < |a[t].phis| ==> PhiValue(b[t].phis[j], p) == PhiValue(a[t].phis[j], blk)
  }

  /** Where `a` goes from `blk`, so does `b`, and with the same values. */
  ghost predicate Simulates(a: seq<Block>, b: seq<Block>, blk: nat, env: Env)
    requires blk < |a| <= |b|
  {
    match Next(a[blk].term, env)
    case None => Next(b[blk].term, env).None?
    case Some(t) => t < |a| && exists p :: ComesFrom(a, b, blk, env, t, p)
  }

  /** The switch of `o` is untouched, and so are its entries in all phis. */
  ghost predicate Pending(a: seq<Block>, b: seq<Block>, o: nat) {
    && Lowerable(b, |a|, o) && o < |a| && b[o].term == a[o].term
    && (forall t :: 0 <= t < |a| ==> |b[t].phis| == |a[t].phis|)
    && forall t, j :: 0 <= t < |a| && 0 <= j < |a[t].phis| ==> SameAt(a[t].phis[j], b[t].phis[j], o)
  }

  ghost predicate SameAt(phi: Phi, psi: Phi, o: nat) {
    |phi| == |psi|
    && forall i :: 0 <= i < |phi| ==> phi[i].value == psi[i].value && (phi[i].from == o <==> psi[i].from == o)
  }

  lemma OtherBlockStep(a: seq<Block>, b: seq<Block>, c: seq<Block>, o: nat, blk: nat, env: Env)
    requires o < |a| <= |b| && blk < |a| && blk != o && Simulates(a, b, blk, env)
    requires Lowerable(b, |a|, o) && Lowered(b, c, |a|, o)
    ensures Simulates(a, c, blk, env)
  {
    if Next(a[blk].term, env).Some? {
      var t := Next(a[blk].term, env).value;
      var p :| ComesFrom(a, b, blk, env, t, p);
      var next := Next(b[blk].term, env).value;
      var fuel :| Follow(b, |a|, blk, next, env, fuel) == Some(Edge(p, t));
      FollowExtends(b, c, |a|, blk, next, env, fuel, fuel);
      assert Follow(c, |a|, blk, Next(c[blk].term, env).value, env, fuel) == Some(Edge(p, t));
      forall j | 0 <= j < |a[t].phis|
        ensures PhiValue(c[t].phis[j], p) == PhiValue(a[t].phis[j], blk)
      {
        assert Moved(b[t].phis[j], c[t].phis[j], o, c, |b|, |c|, t, Count(b[t].phis[j], o));
        RewiredKeeps(b[t].phis[j], c[t].phis[j], o, |b|, |c|, p);
      }
      assert ComesFrom(a, c, blk, env, t, p);
    }
  }

  lemma LoweredBlockStep(a: seq<Block>, b: seq<Block>, c: seq<Block>, o: nat, env: Env)
    requires o < |a| <= |b| && Pending(a, b, o) && Lowered(b, c, |a|, o)
    requires Value(env, a[o].term.val) < Pow2(a[o].term.width)
    ensures Simulates(a, c, o, env)
  {
    var s := b[o].term;
    var t := SwitchTarget(s.cases, s.default, Value(env, s.val));
    TargetAmong(s.cases, s.default, Value(env, s.val));
    assert Arrives(b, c, |a|, o, env);
    var p :| |b| <= p && ArrivesFrom(b, c, |a|, o, env, p);
    var next := Next(c[o].term, env).value;
    var fuel :| Follow(c, |a|, o, next, env, fuel) == Some(Edge(p, t));
    FollowedEdge(c, |a|, o, next, env, fuel);
    assert EdgesInto(c[p].term, t) > 0;
    forall j | 0 <= j < |a[t].phis|
      ensures PhiValue(c[t].phis[j], p) == PhiValue(a[t].phis[j], o)
    {
      var phi, psi := b[t].phis[j], c[t].phis[j];
      assert SameAt(a[t].phis[j], phi, o) && OneEntryPerEdge(phi, b, o, t);
      SameEntries(a[t].phis[j], phi, o);
      MovedValue(phi, psi, o, c, |b|, |c|, t, Count(phi, o), p);
    }
    assert ComesFrom(a, c, o, env, t, p);
  }

  lemma PendingStep(a: seq<Block>, b: seq<Block>, c: seq<Block>, o: nat, q: nat)
    requires o < |a| <= |b| && Lowerable(b, |a|, o) && Lowered(b, c, |a|, o) && Pending(a, b, q) && q != o
    ensures Pending(a, c, q)
  {
    forall t, j | 0 <= t < |a| && 0 <= j < |c[t].phis|
      ensures OneEntryPerEdge(c[t].phis[j], c, q, t) && SameAt(a[t].phis[j], c[t].phis[j], q)
    {
      var phi, psi := b[t].phis[j], c[t].phis[j];
      assert Moved(phi, psi, o, c, |b|, |c|, t, Count(phi, o));
      assert OneEntryPerEdge(phi, b, q, t);
      RewiredBelow(phi, psi, o, |b|, |c|);
      SameEntries(phi, psi, q);
    }
  }

  lemma SelfSimulates(a: seq<Block>, blk: nat, env: Env)
    requires WellFormed(a) && blk < |a|
    ensures Simulates(a, a, blk, env)
  {
    var next := Next(a[blk].term, env);
    if next.Some? {
      assert Follow(a, |a|, blk, next.value, env, 0) == Some(Edge(blk, next.value));
      assert ComesFrom(a, a, blk, env, next.value, blk);
    }
  }

  lemma SelfPending(a: seq<Block>, o: nat)
    requires WellFormed(a) && o < |a| && Wide(a[o].term)
    ensures Pending(a, a, o)
  {
  }

  /** What holds while the blocks in `rest` are still to be looked at. */
  ghost predicate Underway(a: seq<Block>, b: seq<Block>, rest: seq<nat>) {
    && |a| <= |b|
    && (forall o :: o in rest ==> o < |a| && b[o].term == a[o].term && a[o].term.Switch? && a[o].term.cases != [])
    && (forall o :: o in rest && Wide(a[o].term) ==> Pending(a, b, o))
    && (forall blk, env: Env :: 0 <= blk < |a| && Typed(a, env) ==> Simulates(a, b, blk, env))
    && (forall blk :: 0 <= blk < |b| && Wide(b[blk].term) ==> blk < |a| && blk in rest)
  }

  lemma StepUnderway(a: seq<Block>, b: seq<Block>, c: seq<Block>, o: nat, rest: seq<nat>)
    requires Underway(a, b, [o] + rest) && o !in rest && Pending(a, b, o) && Lowered(b, c, |a|, o)
    requires Wide(a[o].term)
    ensures Underway(a, c, rest)
  {
    forall q | q in rest
      ensures q < |a| && c[q].term == a[q].term && a[q].term.Switch? && a[q].term.cases != []
    {
      assert q in [o] + rest;
    }
    forall q | q in rest && Wide(a[q].term)
      ensures Pending(a, c, q)
    {
      assert q in [o] + rest;
      PendingStep(a, b, c, o, q);
    }
    forall blk, env: Env | 0 <= blk < |a| && Typed(a, env)
      ensures Simulates(a, c, blk, env)
    {
      if blk == o {
        LoweredBlockStep(a, b, c, o, env);
      } else {
        OtherBlockStep(a, b, c, o, blk, env);
      }
    }
  }

  // ---- what the pass leaves alone ----

  /** The wide switches that are not in `rest` have become jumps; no other terminator has changed. */
  ghost predicate Confined(a: seq<Block>, b: seq<Block>, rest: seq<nat>) {
    && |a| <= |b|
    && forall i :: 0 <= i < |a| ==>
         if Wide(a[i].term) && i !in rest then b[i].term.Jump? else b[i].term == a[i].term
  }

  /**
   * In place and with their values, the entries of those switches have moved to new blocks, one for
   * each edge that a new block has; every other block has the entries it had.
   */
  ghost predicate Conserved(a: seq<Block>, b: seq<Block>, rest: seq<nat>) {
    && |a| <= |b|
    && (forall t :: 0 <= t < |a| ==> |b[t].phis| == |a[t].phis|)
    && forall t, j :: 0 <= t < |a| && 0 <= j < |a[t].phis| ==> EntriesMoved(a, b, rest, a[t].phis[j], b[t].phis[j], t)
  }

  ghost predicate EntriesMoved(a: seq<Block>, b: seq<Block>, rest: seq<nat>, phi: Phi, psi: Phi, t: nat) {
    && SameValues(phi, psi)
    && (forall p :: 0 <= p < |a| ==> Count(psi, p) == if Wide(a[p].term) && p !in rest then 0 else Count(phi, p))
    && forall p :: |a| <= p < |b| ==> Count(psi, p) == EdgesInto(b[p].term, t)
  }

  ghost predicate SameValues(phi: Phi, psi: Phi) {
    |phi| == |psi| && forall i :: 0 <= i < |phi| ==> psi[i].value == phi[i].value
  }

  lemma EntriesStep(a: seq<Block>, b: seq<Block>, c: seq<Block>, o: nat, rest: seq<nat>, t: nat, phi: Phi, psi: Phi,
                    chi: Phi)
    requires o < |a| <= |b| <= |c| && Wide(a[o].term) && o !in rest
    requires EntriesMoved(a, b, [o] + rest, phi, psi, t)
    requires Moved(psi, chi, o, c, |b|, |c|, t, Count(psi, o))
    requires forall p :: 0 <= p < |b| && p != o ==> c[p].term == b[p].term
    ensures EntriesMoved(a, c, rest, phi, chi, t)
  {
    forall p | 0 <= p < |b| && p != o
      ensures Count(chi, p) == Count(psi, p)
    {
      RewiredKeeps(psi, chi, o, |b|, |c|, p);
    }
    hide Count, EdgesInto;
    forall p | 0 <= p < |a|
      ensures Count(chi, p) == if Wide(a[p].term) && p !in rest then 0 else Count(phi, p)
    {
      assert p in [o] + rest <==> p == o || p in rest;
    }
  }

  lemma ConservedStep(a: seq<Block>, b: seq<Block>, c: seq<Block>, o: nat, rest: seq<nat>)
    requires o < |a| && Wide(a[o].term) && o !in rest && Conserved(a, b, [o] + rest) && Confined(a, b, [o] + rest)
    requires Lowerable(b, |a|, o) && Lowered(b, c, |a|, o)
    ensures Conserved(a, c, rest) && Confined(a, c, rest)
  {
    forall t, j | 0 <= t < |a| && 0 <= j < |a[t].phis|
      ensures EntriesMoved(a, c, rest, a[t].phis[j], c[t].phis[j], t)
    {
      hide EntriesMoved, Moved;
      EntriesStep(a, b, c, o, rest, t, a[t].phis[j], b[t].phis[j], c[t].phis[j]);
    }
    forall i | 0 <= i < |a|
      ensures if Wide(a[i].term) && i !in rest then c[i].term.Jump? else c[i].term == a[i].term
    {
      assert i in [o] + rest <==> i == o || i in rest;
    }
  }

  lemma ConservedSkip(a: seq<Block>, b: seq<Block>, o: nat, rest: seq<nat>)
    requires o < |a| && !Wide(a[o].term) && Conserved(a, b, [o] + rest) && Confined(a, b, [o] + rest)
    ensures Conserved(a, b, rest) && Confined(a, b, rest)
  {
    forall p | 0 <= p < |a| && Wide(a[p].term)
      ensures p in [o] + rest <==> p in rest
    {
    }
    forall t, j | 0 <= t < |a| && 0 <= j < |a[t].phis|
      ensures EntriesMoved(a, b, rest, a[t].phis[j], b[t].phis[j], t)
    {
      assert EntriesMoved(a, b, [o] + rest, a[t].phis[j], b[t].phis[j], t);
    }
  }

  lemma ConservedStart(a: seq<Block>, switches: seq<nat>)
    requires forall b :: 0 <= b < |a| && Wide(a[b].term) ==> b in switches
    ensures Conserved(a, a, switches) && Confined(a, a, switches)
  {
  }

  /** The pass over one function. `switches` is the worklist, in block order. */
  method Split(f: Function)
    requires WellFormed(f.blocks)
    modifies f
    ensures |old(f.blocks)| <= |f.blocks|
    ensures forall blk, env: Env :: 0 <= blk < |old(f.blocks)| && Typed(old(f.blocks), env) ==>
              Simulates(old(f.blocks), f.blocks, blk, env)
    ensures forall blk :: 0 <= blk < |f.blocks| && f.blocks[blk].term.Switch? && f.blocks[blk].term.cases != [] ==>
              f.blocks[blk].term.width <= 8
    ensures forall blk :: 0 <= blk < |old(f.blocks)| ==>
              var term := old(f.blocks)[blk].term;
              if term.Switch? && term.cases != [] && term.width > 8 then f.blocks[blk].term.Jump?
              else f.blocks[blk].term == term
    ensures Confined(old(f.blocks), f.blocks, []) && Conserved(old(f.blocks), f.blocks, [])
  {
    hide Simulates, Lowered, Lowerable, Conserved, Confined, SameAt;
    ghost var a := f.blocks;
    var switches := Collect(f.blocks);
    StartUnderway(a, switches);
    ConservedStart(a, switches);
    for k := 0 to |switches|
      invariant Underway(a, f.blocks, switches[k..])
      invariant Conserved(a, f.blocks, switches[k..]) && Confined(a, f.blocks, switches[k..])
    {
      var o := switches[k];
      assert switches[k..] == [o] + switches[k + 1..];
      assert o !in switches[k + 1..];
      assert o in switches[k..];
      if f.blocks[o].term.width <= 8 {
        SkipUnderway(a, f.blocks, o, switches[k + 1..]);
        ConservedSkip(a, f.blocks, o, switches[k + 1..]);
        continue;
      }
      ghost var b := f.blocks;
      LowerSwitch(f, |a|, o);
      StepUnderway(a, b, f.blocks, o, switches[k + 1..]);
      ConservedStep(a, b, f.blocks, o, switches[k + 1..]);
    }
    assert switches[|switches|..] == [];
    Narrow(a, f.blocks);
  }

  /** What is left of switches when nothing wide is: the jumps are in place of those with cases of more than 8 bits. */
  lemma Narrow(a: seq<Block>, b: seq<Block>)
    requires |a| <= |b| && Confined(a, b, []) && forall blk :: 0 <= blk < |b| ==> !Wide(b[blk].term)
    ensures forall blk :: 0 <= blk < |b| && b[blk].term.Switch? && b[blk].term.cases != [] ==> b[blk].term.width <= 8
    ensures forall blk :: 0 <= blk < |a| ==>
              if a[blk].term.Switch? && a[blk].term.cases != [] && a[blk].term.width > 8 then b[blk].term.Jump?
              else b[blk].term == a[blk].term
  {
    forall blk | 0 <= blk < |b| && b[blk].term.Switch? && b[blk].term.cases != []
      ensures b[blk].term.width <= 8
    {
      assert !Wide(b[blk].term);
    }
  }

  lemma SkipUnderway(a: seq<Block>, b: seq<Block>, o: nat, rest: seq<nat>)
    requires Underway(a, b, [o] + rest) && o < |b| && !Wide(b[o].term)
    ensures Underway(a, b, rest)
  {
    forall q | q in rest
      ensures q in [o] + rest
    {
    }
  }

  lemma StartUnderway(a: seq<Block>, switches: seq<nat>)
    requires WellFormed(a)
    requires forall b :: b in switches <==> 0 <= b < |a| && a[b].term.Switch? && a[b].term.cases != []
    ensures Underway(a, a, switches)
  {
    forall blk, env: Env | 0 <= blk < |a| && Typed(a, env)
      ensures Simulates(a, a, blk, env)
    {
      SelfSimulates(a, blk, env);
    }
    forall o | o in switches && Wide(a[o].term)
      ensures Pending(a, a, o)
    {
      SelfPending(a, o);
    }
  }

  method Collect(blocks: seq<Block>) returns (switches: seq<nat>)
    ensures forall i, j :: 0 <= i < j < |switches| ==> switches[i] < switches[j]
    ensures forall b :: b in switches <==> 0 <= b < |blocks| && blocks[b].term.Switch? && blocks[b].term.cases != []
  {
    switches := [];
    for b := 0 to |blocks|
      invariant forall i, j :: 0 <= i < j < |switches| ==> switches[i] < switches[j]
      invariant forall i :: 0 <= i < |switches| ==> switches[i] < b
      invariant forall c :: c in switches <==> 0 <= c < b && blocks[c].term.Switch? && blocks[c].term.cases != []
    {
      if blocks[b].term.Switch? && |blocks[b].term.cases| >= 1 {
        switches := switches + [b];
      }
    }
  }

  // ---- runs ----

  /** The blocks visited from `blk` on, when the k-th branch taken sees the values `envs[k]`. */
  function Visits(a: seq<Block>, blk: nat, envs: seq<Env>): seq<nat>
    decreases |envs|
  {
    if envs == [] || blk >= |a| || Next(a[blk].term, envs[0]).None? then []
    else
      var t := Next(a[blk].term, envs[0]).value;
      [t] + Visits(a, t, envs[1..])
  }

  /** From `blk`, the function `b` visits `visits` and stops there, entering each from its source
      and finding in its phis what `a` finds. */
  ghost predicate SameRun(a: seq<Block>, b: seq<Block>, blk: nat, envs: seq<Env>, visits: seq<nat>, sources: seq<nat>)
    requires blk < |a| <= |b|
    decreases |envs|
  {
    && |visits| == |sources|
    && if visits == [] then envs == [] || Next(b[blk].term, envs[0]).None?
       else
         && envs != [] && visits[0] < |a|
         && ComesFrom(a, b, blk, envs[0], visits[0], sources[0])
         && SameRun(a, b, visits[0], envs[1..], visits[1..], sources[1..])
  }

  lemma {:induction false} RunsAgree(a: seq<Block>, b: seq<Block>, blk: nat, envs: seq<Env>) returns (sources: seq<nat>)
    requires blk < |a| <= |b| && (forall k :: 0 <= k < |envs| ==> Typed(a, envs[k]))
    requires forall c, env: Env :: 0 <= c < |a| && Typed(a, env) ==> Simulates(a, b, c, env)
    ensures SameRun(a, b, blk, envs, Visits(a, blk, envs), sources)
    decreases |envs|
  {
    sources := [];
    if envs != [] {
      assert Typed(a, envs[0]) && Simulates(a, b, blk, envs[0]);
      if Next(a[blk].term, envs[0]).Some? {
        var t := Next(a[blk].term, envs[0]).value;
        var p :| ComesFrom(a, b, blk, envs[0], t, p);
        var rest := RunsAgree(a, b, t, envs[1..]);
        sources := [p] + rest;
        assert Visits(a, blk, envs)[1..] == Visits(a, t, envs[1..]) && sources[1..] == rest;
      }
    }
  }
}
