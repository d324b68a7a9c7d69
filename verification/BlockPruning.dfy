/**
 * Which basic blocks need no instrumentation of their own. Dominance is a statement about paths;
 * the pruning is sound because what a complete path does not record follows from what it does.
 */
module BlockPruning {

  /**
   * Block 0 is the entry. Edges are listed at both ends, as often as they occur. Nothing is ever
   * inserted into the `skipped` blocks. `roots` are the blocks where the post-dominator tree lets
   * paths end: those without successors, and any it picks in endless loops.
   */
  datatype Graph = Graph(succs: seq<seq<nat>>, preds: seq<seq<nat>>, skipped: set<nat>, roots: set<nat>)

  ghost predicate WellFormed(g: Graph) {
    && 0 < |g.succs| == |g.preds|
    && (forall a, b :: 0 <= a < |g.succs| && b in g.succs[a] ==> b < |g.succs|)
    && (forall a, b :: 0 <= b < |g.succs| && a in g.preds[b] ==> a < |g.succs|)
    && (forall a: nat, b: nat :: a < |g.succs| && b < |g.succs| ==> Edges(g, a, b) == multiset(g.preds[b])[a])
    && forall b :: 0 <= b < |g.succs| && g.succs[b] == [] ==> b in g.roots
  }

  function Edges(g: Graph, a: nat, b: nat): nat
    requires a < |g.succs|
  {
    multiset(g.succs[a])[b]
  }

  ghost predicate Edge(g: Graph, a: nat, b: nat) {
    a < |g.succs| && b < |g.succs| && b in g.succs[a]
  }

  // ---- paths ----

  ghost predicate Path(g: Graph, p: seq<nat>) {
    && p != []
    && (forall i :: 0 <= i < |p| ==> p[i] < |g.succs|)
    && forall i :: 0 < i < |p| ==> Edge(g, p[i - 1], p[i])
  }

  function Last(p: seq<nat>): nat
    requires p != []
  {
    p[|p| - 1]
  }

  ghost predicate Leads(g: Graph, p: seq<nat>, a: nat, b: nat) {
    Path(g, p) && p[0] == a && Last(p) == b
  }

  /** Every path from the entry to b goes through a. */
  ghost predicate Dominates(g: Graph, a: nat, b: nat) {
    forall p :: Leads(g, p, 0, b) ==> a in p
  }

  /** Every path from b to where paths end goes through a. */
  ghost predicate PostDominates(g: Graph, a: nat, b: nat) {
    forall p :: Path(g, p) && p[0] == b && Last(p) in g.roots ==> a in p
  }

  ghost predicate Reachable(g: Graph, b: nat) {
    exists p :: Leads(g, p, 0, b)
  }

  /** A run of the function: from the entry to a block without successors, which is not a skipped one. */
  ghost predicate Complete(g: Graph, p: seq<nat>) {
    Path(g, p) && p[0] == 0 && g.succs[Last(p)] == [] && Last(p) !in g.skipped
  }

  // ---- what is pruned ----

  ghost predicate FullDominator(g: Graph, b: nat)
    requires b < |g.succs|
  {
    g.succs[b] != [] && forall s :: s in g.succs[b] ==> Dominates(g, b, s)
  }

  ghost predicate FullPostDominator(g: Graph, b: nat)
    requires b < |g.preds|
  {
    g.preds[b] != [] && forall a :: a in g.preds[b] ==> PostDominates(g, b, a)
  }

  ghost predicate SinglePredecessor(g: Graph, b: nat)
    requires b < |g.preds|
  {
    |g.preds[b]| == 1
  }

  /** The blocks that the default options instrument. */
  ghost predicate Instrumented(g: Graph, b: nat)
    requires b < |g.succs| == |g.preds|
  {
    && b !in g.skipped
    && (b == 0 ==> |g.succs| == 1)
    && (b != 0 ==> !FullDominator(g, b) && !(FullPostDominator(g, b) && !SinglePredecessor(g, b)))
  }

  datatype Coverage = FunctionOnly | BasicBlocks | EdgesToo

  datatype Options = Options(noPrune: bool, coverage: Coverage)

  /** The pairs that a dominator tree relates. */
  type Tree = set<(nat, nat)>

  ghost predicate IsDominatorTree(dt: Tree, g: Graph) {
    forall a: nat, b: nat :: a < |g.succs| && b < |g.succs| ==> ((a, b) in dt <==> Dominates(g, a, b))
  }

  ghost predicate IsPostDominatorTree(pdt: Tree, g: Graph) {
    forall a: nat, b: nat :: a < |g.succs| && b < |g.succs| ==> ((a, b) in pdt <==> PostDominates(g, a, b))
  }

  method IsFullDominator(g: Graph, b: nat, dt: Tree) returns (full: bool)
    requires WellFormed(g) && b < |g.succs| && IsDominatorTree(dt, g)
    ensures full <==> FullDominator(g, b)
  {
    if g.succs[b] == [] {
      return false;
    }
    for i := 0 to |g.succs[b]|
      invariant forall j :: 0 <= j < i ==> Dominates(g, b, g.succs[b][j])
    {
      assert g.succs[b][i] in g.succs[b];
      if (b, g.succs[b][i]) !in dt {
        return false;
      }
    }
    full := true;
  }

  method IsFullPostDominator(g: Graph, b: nat, pdt: Tree) returns (full: bool)
    requires WellFormed(g) && b < |g.succs| && IsPostDominatorTree(pdt, g)
    ensures full <==> FullPostDominator(g, b)
  {
    if g.preds[b] == [] {
      return false;
    }
    for i := 0 to |g.preds[b]|
      invariant forall j :: 0 <= j < i ==> PostDominates(g, b, g.preds[b][j])
    {
      assert g.preds[b][i] in g.preds[b];
      if (b, g.preds[b][i]) !in pdt {
        return false;
      }
    }
    full := true;
  }

  method ShouldInstrumentBlock(g: Graph, b: nat, dt: Tree, pdt: Tree, options: Options) returns (should: bool)
    requires WellFormed(g) && b < |g.succs| && IsDominatorTree(dt, g) && IsPostDominatorTree(pdt, g)
    ensures options.noPrune ==> (should <==> b !in g.skipped)
    ensures !options.noPrune && options.coverage.FunctionOnly? ==>
              (should <==> b !in g.skipped && b == 0 && |g.succs| == 1)
    ensures !options.noPrune && !options.coverage.FunctionOnly? ==>
              (should <==> b !in g.skipped
                           && if b == 0 then |g.succs| == 1
                              else !FullDominator(g, b) && !(FullPostDominator(g, b) && |g.preds[b]| != 1))
    ensures !options.noPrune && !options.coverage.FunctionOnly? ==> (should <==> Instrumented(g, b))
  {
    if b in g.skipped {
      return false;
    }
    if !options.noPrune && b == 0 && |g.succs| > 1 {
      return false;
    }
    if options.noPrune || b == 0 {
      return true;
    }
    if options.coverage.FunctionOnly? && b != 0 {
      return false;
    }
    var dominates := IsFullDominator(g, b, dt);
    var postDominates := IsFullPostDominator(g, b, pdt);
    should := !dominates && !(postDominates && |g.preds[b]| != 1);
  }

  // ---- a pruned block is on a path with its neighbours ----

  lemma EdgeAtBothEnds(g: Graph, a: nat, b: nat)
    requires WellFormed(g) && a < |g.succs| && b < |g.succs|
    ensures b in g.succs[a] <==> a in g.preds[b]
  {
    assert b in g.succs[a] <==> Edges(g, a, b) > 0;
  }

  lemma PrefixLeads(g: Graph, p: seq<nat>, i: nat)
    requires Path(g, p) && i < |p|
    ensures Leads(g, p[..i + 1], p[0], p[i])
  {
  }

  lemma SuffixLeads(g: Graph, p: seq<nat>, i: nat)
    requires Path(g, p) && i < |p|
    ensures Leads(g, p[i..], p[i], Last(p))
  {
  }

  /** A full dominator is on a run iff one of its successors is. */
  lemma FullDominatorOnPath(g: Graph, p: seq<nat>, b: nat)
    requires WellFormed(g) && Complete(g, p) && b < |g.succs| && FullDominator(g, b)
    ensures b in p <==> exists s :: s in g.succs[b] && s in p
  {
    if b in p {
      var i :| 0 <= i < |p| && p[i] == b;
      assert i + 1 < |p|;
      assert Edge(g, p[i + 1 - 1], p[i + 1]);
    }
    if s :| s in g.succs[b] && s in p {
      DominatorOnPath(g, p, b, s);
    }
  }

  lemma DominatorOnPath(g: Graph, p: seq<nat>, a: nat, b: nat)
    requires Path(g, p) && p[0] == 0 && b in p && Dominates(g, a, b)
    ensures a in p
  {
    var i :| 0 <= i < |p| && p[i] == b;
    PrefixLeads(g, p, i);
    assert a in p[..i + 1];
  }

  lemma PostDominatorOnPath(g: Graph, p: seq<nat>, a: nat, b: nat)
    requires WellFormed(g) && Complete(g, p) && b in p && PostDominates(g, a, b)
    ensures a in p
  {
    var i :| 0 <= i < |p| && p[i] == b;
    SuffixLeads(g, p, i);
    assert a in p[i..];
  }

  /** A full post-dominator other than the entry is on a run iff one of its predecessors is. */
  lemma FullPostDominatorOnPath(g: Graph, p: seq<nat>, b: nat)
    requires WellFormed(g) && Complete(g, p) && 0 < b < |g.succs| && FullPostDominator(g, b)
    ensures b in p <==> exists a :: a in g.preds[b] && a in p
  {
    if b in p {
      var i :| 0 <= i < |p| && p[i] == b;
      assert i > 0;
      EdgeAtBothEnds(g, p[i - 1], p[i]);
    }
    if a :| a in g.preds[b] && a in p {
      PostDominatorOnPath(g, p, b, a);
    }
  }

  // ---- the whole footprint ----

  /**
   * What edge coverage makes of a function before it prunes: critical edges are split unless they
   * lead to skipped blocks.
   */
  ghost predicate EdgesSplit(g: Graph) {
    && WellFormed(g) && g.preds[0] == []
    && (forall b :: 0 <= b < |g.succs| && b in g.skipped ==> g.succs[b] == [])
    && forall a: nat, b: nat :: Edge(g, a, b) && b !in g.skipped ==> |g.succs[a]| <= 1 || |g.preds[b]| <= 1
  }

  /** A block that control can reach is entered only from such blocks. */
  ghost predicate EnteredFromReachable(g: Graph) {
    forall a: nat, b: nat :: Edge(g, a, b) && b !in g.skipped && Reachable(g, b) ==> Reachable(g, a)
  }

  ghost predicate Prepared(g: Graph) { EdgesSplit(g) && EnteredFromReachable(g) }

  /** There are successors, and all that are not skipped are dominated. */
  ghost predicate DominatesLive(g: Graph, b: nat) {
    && (exists s :: Edge(g, b, s))
    && forall s :: Edge(g, b, s) && s !in g.skipped ==> Dominates(g, b, s)
  }

  lemma OnlyPredecessorDominates(g: Graph, a: nat, b: nat)
    requires WellFormed(g) && b != 0 && Edge(g, a, b) && |g.preds[b]| <= 1
    ensures Dominates(g, a, b)
  {
    EdgeAtBothEnds(g, a, b);
    assert g.preds[b] == [a];
    forall p | Leads(g, p, 0, b)
      ensures a in p
    {
      var i := |p| - 1;
      assert i > 0 && Edge(g, p[i - 1], p[i]);
      EdgeAtBothEnds(g, p[i - 1], p[i]);
    }
  }

  lemma {:induction false} AllTheSame(s: seq<nat>, x: nat)
    requires forall i :: 0 <= i < |s| ==> s[i] == x
    ensures multiset(s)[x] == |s|
  {
    if s != [] {
      AllTheSame(s[1..], x);
      assert s == [s[0]] + s[1..];
    }
  }

  lemma OneEdge(g: Graph, b: nat, s: nat)
    requires Edge(g, b, s) && |g.succs[b]| <= 1
    ensures Edges(g, b, s) == 1
  {
    assert g.succs[b] == [s];
  }

  /** Another edge into s comes from another block, when b has one edge only. */
  lemma AnotherPredecessor(g: Graph, b: nat, s: nat) returns (a: nat)
    requires WellFormed(g) && Edge(g, b, s) && |g.succs[b]| <= 1 && |g.preds[s]| > 1
    ensures a != b && Edge(g, a, s)
  {
    OneEdge(g, b, s);
    if forall i :: 0 <= i < |g.preds[s]| ==> g.preds[s][i] == b {
      AllTheSame(g.preds[s], b);
    }
    var i :| 0 <= i < |g.preds[s]| && g.preds[s][i] != b;
    a := g.preds[s][i];
    assert a in g.preds[s];
    EdgeAtBothEnds(g, a, s);
  }

  lemma LastOccurrence(p: seq<nat>, b: nat) returns (i: nat)
    requires b in p
    ensures i < |p| && p[i] == b && b !in p[i + 1..]
  {
    i := |p| - 1;
    while p[i] != b
      invariant i < |p| && b !in p[i + 1..]
      decreases i
    {
      assert p[i..] == [p[i]] + p[i + 1..];
      assert p == p[..i] + p[i..];
      i := i - 1;
    }
  }

  lemma Extended(g: Graph, p: seq<nat>, b: nat)
    requires Path(g, p) && Edge(g, Last(p), b)
    ensures Leads(g, p + [b], p[0], b)
  {
  }

  lemma Joined(g: Graph, p: seq<nat>, q: seq<nat>)
    requires Path(g, p) && Path(g, q) && Last(p) == q[0]
    ensures Leads(g, p + q[1..], p[0], Last(q))
  {
    var r := p + q[1..];
    forall i | 0 < i < |r|
      ensures Edge(g, r[i - 1], r[i])
    {
      if i >= |p| {
        var j := i - |p| + 1;
        assert r[i] == q[j] && r[i - 1] == q[j - 1];
      }
    }
  }

  /** After b, which has one edge only, a path that does not end there goes on to s. */
  lemma GoesOn(g: Graph, p: seq<nat>, b: nat, s: nat) returns (i: nat)
    requires WellFormed(g) && Path(g, p) && b in p && Last(p) != b && Edge(g, b, s) && |g.succs[b]| <= 1
    ensures i + 1 < |p| && p[i] == b && p[i + 1] == s && b !in p[i + 1..]
  {
    i := LastOccurrence(p, b);
    assert i + 1 < |p|;
    assert Edge(g, p[i + 1 - 1], p[i + 1]);
  }

  /** A path to another predecessor of s, which b dominates and leads to by its only edge. */
  lemma AroundTheLoop(g: Graph, b: nat, s: nat, a: nat, p: seq<nat>)
    requires WellFormed(g) && Edge(g, b, s) && |g.succs[b]| <= 1 && Dominates(g, b, s)
    requires Edge(g, a, s) && a != b && b != s && Leads(g, p, 0, a)
    ensures s in p
  {
    Extended(g, p, s);
    assert b in p + [s];
    var i := GoesOn(g, p, b, s);
  }

  /** s has several predecessors, b among them, and b dominates what it leads to. */
  ghost predicate Entered(g: Graph, b: nat, s: nat) {
    && Prepared(g) && Edge(g, b, s) && s !in g.skipped && Reachable(g, s)
    && Dominates(g, b, s) && |g.preds[s]| > 1
  }

  /** Then s is the head of a loop that b alone leads into, and dominates its successors too. */
  lemma HeadDominatesLive(g: Graph, b: nat, s: nat)
    requires Entered(g, b, s)
    ensures DominatesLive(g, s)
  {
    var a := AnotherPredecessor(g, b, s);
    if a == s || b == s {
      assert Edge(g, s, s);
    } else {
      assert Reachable(g, a);
      var p :| Leads(g, p, 0, a);
      AroundTheLoop(g, b, s, a, p);
      var k :| 0 <= k < |p| && p[k] == s;
      assert s != Last(p);
      assert Edge(g, p[k + 1 - 1], p[k + 1]);
    }
    forall x | Edge(g, s, x) && x !in g.skipped
      ensures Dominates(g, s, x)
    {
      EdgeAtBothEnds(g, s, x);
      if |g.succs[s]| > 1 {
        OnlyPredecessorDominates(g, s, x);
      } else if x == s || a == s || b == s {
        assert x == s;
      } else {
        OnlySuccessorDominated(g, b, s, a, x);
      }
    }
  }

  lemma OnlySuccessorDominated(g: Graph, b: nat, s: nat, a: nat, x: nat)
    requires Entered(g, b, s) && Edge(g, a, s) && a != b && a != s && b != s
    requires Edge(g, s, x) && |g.succs[s]| <= 1
    ensures Dominates(g, s, x)
  {
    assert Reachable(g, a);
    var p :| Leads(g, p, 0, a);
    AroundTheLoop(g, b, s, a, p);
    var k := GoesOn(g, p, s, x);
    var back := p[k + 1..];
    SuffixLeads(g, p, k + 1);
    forall q | Leads(g, q, 0, x)
      ensures s in q
    {
      Joined(g, q, back);
      AroundTheLoop(g, b, s, a, q + back[1..]);
      assert s !in back[1..];
    }
  }

  /** p and q have the instrumented blocks of p in common. */
  ghost predicate Recorded(g: Graph, p: seq<nat>, q: seq<nat>) {
    && Prepared(g) && Complete(g, p) && Complete(g, q)
    && forall b :: b in p && Instrumented(g, b) ==> b in q
  }

  /** No run meets a skipped block, or the entry a second time. */
  lemma OnRun(g: Graph, p: seq<nat>, i: nat)
    requires Prepared(g) && Complete(g, p) && i < |p|
    ensures p[i] < |g.succs| && p[i] !in g.skipped && (i > 0 ==> p[i] != 0 && Edge(g, p[i - 1], p[i]))
  {
    if i > 0 {
      EdgeAtBothEnds(g, p[i - 1], p[i]);
    }
    if i + 1 < |p| {
      assert Edge(g, p[i + 1 - 1], p[i + 1]);
    }
  }

  lemma FullDominatorDominatesLive(g: Graph, b: nat)
    requires WellFormed(g) && b < |g.succs| && FullDominator(g, b)
    ensures DominatesLive(g, b)
  {
    var s := g.succs[b][0];
    assert s in g.succs[b];
    assert Edge(g, b, s);
  }

  /**
   * A block that dominates its live successors is on q if it is on p: its successor on p is either
   * recorded or such a block.
   */
  lemma {:induction false} DominatorRecorded(g: Graph, p: seq<nat>, q: seq<nat>, i: nat)
    requires Recorded(g, p, q) && i < |p| && DominatesLive(g, p[i])
    ensures p[i] in q
    decreases |p| - i
  {
    assert i + 1 < |p|;
    OnRun(g, p, i + 1);
    var b, s := p[i], p[i + 1];
    assert Edge(g, b, s) && Dominates(g, b, s);
    EdgeAtBothEnds(g, b, s);
    if !Instrumented(g, s) {
      if FullDominator(g, s) {
        FullDominatorDominatesLive(g, s);
      } else {
        PrefixLeads(g, p, i + 1);
        HeadDominatesLive(g, b, s);
      }
      DominatorRecorded(g, p, q, i + 1);
    }
    DominatorOnPath(g, q, b, s);
  }

  lemma {:induction false} BlockRecorded(g: Graph, p: seq<nat>, q: seq<nat>, i: nat)
    requires Recorded(g, p, q) && i < |p|
    ensures p[i] in q
  {
    OnRun(g, p, i);
    var b := p[i];
    if i == 0 || Instrumented(g, b) {
    } else if FullDominator(g, b) {
      FullDominatorDominatesLive(g, b);
      DominatorRecorded(g, p, q, i);
    } else {
      BlockRecorded(g, p, q, i - 1);
      EdgeAtBothEnds(g, p[i - 1], b);
      PostDominatorOnPath(g, q, b, p[i - 1]);
    }
  }

  /** Two runs that record the same instrumented blocks went through the same blocks altogether. */
  lemma FootprintDeterminesBlocks(g: Graph, p: seq<nat>, q: seq<nat>)
    requires Prepared(g) && Complete(g, p) && Complete(g, q)
    requires forall b: nat :: b < |g.succs| && Instrumented(g, b) ==> (b in p <==> b in q)
    ensures forall b :: b in p <==> b in q
  {
    assert Recorded(g, p, q) && Recorded(g, q, p);
    forall b | b in p || b in q
      ensures b in p && b in q
    {
      if b in p {
        var i :| 0 <= i < |p| && p[i] == b;
        BlockRecorded(g, p, q, i);
      } else {
        var i :| 0 <= i < |q| && q[i] == b;
        BlockRecorded(g, q, p, i);
      }
    }
  }

  // ---- unreachable predecessors ----

  /** Two arms, each of two blocks; a block that control never reaches leads into each second one. */
  const TWO_ARMS: Graph := Graph(
    [[1, 2], [3], [4], [7], [7], [3], [4], []],
    [[], [0], [0], [1, 5], [2, 6], [], [], [3, 4]], {}, {7})

  lemma TwoArmsSplit()
    ensures EdgesSplit(TWO_ARMS)
  {
    var g := TWO_ARMS;
    forall a: nat, b: nat | a < 8 && b < 8
      ensures Edges(g, a, b) == multiset(g.preds[b])[a]
    {
      EdgesOfTwoArms(a, b);
    }
  }

  lemma EdgesOfTwoArms(a: nat, b: nat)
    requires a < 8 && b < 8
    ensures Edges(TWO_ARMS, a, b) == multiset(TWO_ARMS.preds[b])[a]
  {
    AtMostTwo(TWO_ARMS.succs[a], b);
    AtMostTwo(TWO_ARMS.preds[b], a);
  }

  lemma AtMostTwo(s: seq<nat>, x: nat)
    requires |s| <= 2
    ensures multiset(s)[x] == (if |s| > 0 && s[0] == x then 1 else 0) + if |s| > 1 && s[1] == x then 1 else 0
  {
    if |s| == 1 {
      assert s == [s[0]];
    } else if |s| == 2 {
      assert s == [s[0], s[1]];
    }
  }

  /** A path from the entry that does not end there comes from a predecessor that has a path too. */
  lemma ComesFrom(g: Graph, p: seq<nat>, b: nat) returns (a: nat)
    requires WellFormed(g) && Leads(g, p, 0, b) && b != 0
    ensures a in g.preds[b] && a in p && Leads(g, p[..|p| - 1], 0, a)
  {
    var i := |p| - 2;
    a := p[i];
    assert Edge(g, p[i], p[i + 1]) by { assert Edge(g, p[i + 1 - 1], p[i + 1]); }
    EdgeAtBothEnds(g, a, b);
    PrefixLeads(g, p, i);
  }

  /** The first block of an arm dominates the second. */
  lemma ArmDominates(first: nat, second: nat)
    requires (first == 1 && second == 3) || (first == 2 && second == 4)
    ensures Dominates(TWO_ARMS, first, second) && FullDominator(TWO_ARMS, first)
  {
    var g := TWO_ARMS;
    TwoArmsSplit();
    forall p | Leads(g, p, 0, second)
      ensures first in p
    {
      var a := ComesFrom(g, p, second);
      if a != first {
        var c := ComesFrom(g, p[..|p| - 1], a);
        assert false;
      }
    }
    assert g.succs[first] == [second];
  }

  /** The second block of an arm post-dominates its predecessors. */
  lemma ArmPostDominates(a: nat, second: nat)
    requires (second == 3 && (a == 1 || a == 5)) || (second == 4 && (a == 2 || a == 6))
    ensures PostDominates(TWO_ARMS, second, a)
  {
    var g := TWO_ARMS;
    forall p | Path(g, p) && p[0] == a && Last(p) in g.roots
      ensures second in p
    {
      assert |p| > 1 && Edge(g, p[1 - 1], p[1]);
      assert g.succs[a] == [second];
    }
  }

  /** All blocks that control can reach are pruned. */
  lemma NothingRecorded(b: nat)
    requires b < 8 && b != 5 && b != 6
    ensures !Instrumented(TWO_ARMS, b)
  {
    var g := TWO_ARMS;
    if b == 1 || b == 2 {
      ArmDominates(b, b + 2);
    } else if b == 3 || b == 4 {
      ArmPostDominates(b - 2, b);
      ArmPostDominates(b + 2, b);
      assert FullPostDominator(g, b);
    } else if b == 7 {
      assert PostDominates(g, 7, 3) && PostDominates(g, 7, 4);
      assert FullPostDominator(g, 7);
    }
  }

  /**
   * With predecessors that control never reaches, the pruning loses a branch: two runs record the
   * same blocks, none, and went through different ones.
   */
  lemma UnreachablePredecessorsFail()
    ensures var g, p, q := TWO_ARMS, [0, 1, 3, 7], [0, 2, 4, 7];
            && EdgesSplit(g) && !EnteredFromReachable(g) && Complete(g, p) && Complete(g, q)
            && (forall b: nat :: b < |g.succs| && Instrumented(g, b) ==> (b in p <==> b in q))
            && 1 in p && 1 !in q
  {
    var g, p, q := TWO_ARMS, [0, 1, 3, 7], [0, 2, 4, 7];
    TwoArmsSplit();
    ArmsComplete();
    FiveUnreachable();
    hide Path, FullDominator, FullPostDominator;
    forall b: nat | b < 8 && Instrumented(g, b)
      ensures b in p <==> b in q
    {
      if b != 5 && b != 6 {
        NothingRecorded(b);
      }
    }
  }

  lemma ArmsComplete()
    ensures Complete(TWO_ARMS, [0, 1, 3, 7]) && Complete(TWO_ARMS, [0, 2, 4, 7])
  {
  }

  /** Block 5 has no path, and leads to block 3, which has one. */
  lemma FiveUnreachable()
    ensures !EnteredFromReachable(TWO_ARMS)
  {
    var g, p := TWO_ARMS, [0, 1, 3, 7];
    TwoArmsSplit();
    ArmsComplete();
    PrefixLeads(g, p, 2);
    assert Edge(g, 5, 3) && Reachable(g, 3);
    if r :| Leads(g, r, 0, 5) {
      var a := ComesFrom(g, r, 5);
    }
    assert !Reachable(g, 5);
  }
}
