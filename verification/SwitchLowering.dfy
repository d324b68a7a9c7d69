/**
 * Lowering a switch to a tree of byte tests. For every runtime value the tree goes where the
 * switch went, and the phis there find the value they found before.
 */
module SwitchLowering {
  import opened Words
  import opened Ir
  import opened SwitchCases
  import opened PhiMoves

  /** Blocks `lo` to `hi` are new decision nodes, without phis. */
  ghost predicate NewNodes(blocks: seq<Block>, lo: nat, hi: nat) {
    hi <= |blocks| && forall p :: lo <= p < hi ==> blocks[p].phis == [] && Decision(blocks[p].term)
  }

  /** Edges that the blocks `lo` to `hi` have into `t`. */
  ghost function TotalEdges(blocks: seq<Block>, lo: nat, hi: nat, t: nat): nat
    requires lo <= hi <= |blocks|
    decreases hi - lo
  {
    if lo == hi then 0 else EdgesInto(blocks[lo].term, t) + TotalEdges(blocks, lo + 1, hi, t)
  }

  lemma {:induction false} TotalEdgesSum(blocks: seq<Block>, lo: nat, mid: nat, hi: nat, t: nat)
    requires lo <= mid <= hi <= |blocks|
    ensures TotalEdges(blocks, lo, hi, t) == TotalEdges(blocks, lo, mid, t) + TotalEdges(blocks, mid, hi, t)
    decreases mid - lo
  {
    if lo < mid {
      TotalEdgesSum(blocks, lo + 1, mid, hi, t);
    }
  }

  lemma {:induction false} TotalEdgesAgree(a: seq<Block>, b: seq<Block>, lo: nat, hi: nat, t: nat)
    requires lo <= hi <= |a| && hi <= |b| && forall p :: lo <= p < hi ==> a[p].term == b[p].term
    ensures TotalEdges(a, lo, hi, t) == TotalEdges(b, lo, hi, t)
    decreases hi - lo
  {
    if lo < hi {
      TotalEdgesAgree(a, b, lo + 1, hi, t);
    }
  }

  predicate Decision(t: Terminator) { t.Jump? || t.ByteEq? || t.ByteLess? }

  /** Blocks of the original function and the new default are kept, up to sources in phis. */
  ghost predicate Kept(a: seq<Block>, b: seq<Block>) {
    && |a| <= |b|
    && forall i :: 0 <= i < |a| ==> b[i].term == a[i].term && |b[i].phis| == |a[i].phis|
  }

  /** The phis of every block below `first` gave one entry of `orig` to each new edge. */
  ghost predicate AllMoved(a: seq<Block>, b: seq<Block>, orig: nat, first: nat, lo: nat, hi: nat, cases: seq<Case>) {
    && first <= |a| <= |b|
    && (forall t :: 0 <= t < first ==> |b[t].phis| == |a[t].phis|)
    && forall t, j :: 0 <= t < first && 0 <= j < |a[t].phis| ==>
         Moved(a[t].phis[j], b[t].phis[j], orig, b, lo, hi, t, Into(cases, t))
  }

  /** No phi names a block from `n` on, and `orig` has an entry for each of the cases. */
  ghost predicate PhisReady(blocks: seq<Block>, orig: nat, first: nat, n: nat, cases: seq<Case>) {
    && first <= |blocks|
    && forall t, j :: 0 <= t < first && 0 <= j < |blocks[t].phis| ==>
         FromBelow(blocks[t].phis[j], n) && Count(blocks[t].phis[j], orig) >= Into(cases, t)
  }

  /** Control at `node` leaves the tree where the switch goes. */
  ghost predicate Sends(blocks: seq<Block>, node: nat, depth: nat, cases: seq<Case>, newDefault: nat,
                        val: nat, env: Env, from: nat)
  {
    var r := Follow(blocks, newDefault + 1, from, node, env, depth);
    r.Some? && r.value.to == SwitchTarget(cases, newDefault, Value(env, val))
  }

  /** So it is for every value that has the cases' bytes at the checked positions. */
  ghost predicate Decides(blocks: seq<Block>, node: nat, depth: nat, cases: seq<Case>, newDefault: nat,
                          val: nat, width: nat, checked: seq<bool>)
    requires cases != []
  {
    forall env: Env, from: nat ::
      Value(env, val) < Pow2(width) && Agree(Value(env, val), cases[0].value, checked) ==>
      Sends(blocks, node, depth, cases, newDefault, val, env, from)
  }

  /** What one call of switchConvert is given. */
  ghost predicate Convertible(blocks: seq<Block>, cases: seq<Case>, checked: seq<bool>, orig: nat, newDefault: nat,
                              width: nat) {
    && cases != [] && Distinct(cases, width) && width <= 8 * |checked|
    && AllAgree(cases, cases[0].value, checked) && Unchecked(checked) > 0
    && orig < newDefault < |blocks|
    && (forall i :: 0 <= i < |cases| ==> cases[i].dest < newDefault)
    && PhisReady(blocks, orig, newDefault, |blocks|, cases)
  }

  /** What it leaves. */
  ghost predicate Converted(a: seq<Block>, b: seq<Block>, node: nat, depth: nat, cases: seq<Case>, checked: seq<bool>,
                            orig: nat, newDefault: nat, val: nat, width: nat)
    requires cases != []
  {
    && |a| <= node < |b|
    && Kept(a, b) && NewNodes(b, |a|, |b|)
    && AllMoved(a, b, orig, newDefault, |a|, |b|, cases)
    && (forall t :: 0 <= t < newDefault ==> TotalEdges(b, |a|, |b|, t) == Into(cases, t))
    && Decides(b, node, depth, cases, newDefault, val, width, checked)
  }

  // ---- a leaf ----

  lemma LeafDecides(b: seq<Block>, node: nat, c: Case, i: nat, newDefault: nat, val: nat, width: nat,
                    checked: seq<bool>)
    requires newDefault < node < |b| && c.dest < newDefault && c.value < Pow2(width) && width <= 8 * |checked|
    requires i < |checked| && forall k :: 0 <= k < |checked| && k != i ==> checked[k]
    requires b[node].term == ByteEq(val, i, ByteAt(c.value, i), c.dest, newDefault)
    ensures Decides(b, node, 1, [c], newDefault, val, width, checked)
  {
    forall env: Env, from: nat | Value(env, val) < Pow2(width) && Agree(Value(env, val), c.value, checked)
      ensures Sends(b, node, 1, [c], newDefault, val, env, from)
    {
      var v := Value(env, val);
      if ByteAt(v, i) == ByteAt(c.value, i) {
        AgreeIsEqual(v, c.value, seq(|checked|, _ => true), width);
      }
      TargetCons(c, [], newDefault, v);
      var next := if ByteAt(v, i) == ByteAt(c.value, i) then c.dest else newDefault;
      assert Follow(b, newDefault + 1, node, next, env, 0) == Some(Edge(node, next));
    }
  }

  lemma LeafMoved(a: seq<Block>, b: seq<Block>, c: Case, orig: nat, newDefault: nat)
    requires orig < newDefault < |a| && |b| == |a| + 1 && c.dest < newDefault
    requires PhisReady(a, orig, newDefault, |a|, [c])
    requires b[|a|].term.ByteEq? && b[|a|].term.yes == c.dest && b[|a|].term.no == newDefault
    requires forall i :: 0 <= i < |a| ==>
               b[i].phis == if i == c.dest then ReplaceAll(a[i].phis, orig, |a|) else a[i].phis
    ensures AllMoved(a, b, orig, newDefault, |a|, |b|, [c])
  {
    forall t, j | 0 <= t < newDefault && 0 <= j < |a[t].phis|
      ensures |b[t].phis| == |a[t].phis|
      ensures Moved(a[t].phis[j], b[t].phis[j], orig, b, |a|, |b|, t, Into([c], t))
    {
      assert Into([c], t) == if c.dest == t then 1 else 0;
      if t == c.dest {
        MovedOne(a[t].phis[j], orig, b, |a|, t);
      } else {
        MovedNone(a[t].phis[j], orig, b, |a|, t);
      }
    }
  }

  // ---- an inner test for one byte ----

  lemma EqDecides(a: seq<Block>, b: seq<Block>, node: nat, bb: nat, depth: nat, cases: seq<Case>, i: nat, byte: nat,
                  newDefault: nat, val: nat, width: nat, checked: seq<bool>)
    requires cases != [] && i < |checked| && !checked[i] && newDefault < node < |b|
    requires forall c :: c in cases ==> ByteAt(c.value, i) == byte
    requires Decides(a, bb, depth, cases, newDefault, val, width, checked[i := true])
    requires Extends(a, b) && b[node].term == ByteEq(val, i, byte, bb, newDefault)
    ensures Decides(b, node, depth + 1, cases, newDefault, val, width, checked)
  {
    var d := depth + 1;
    forall env: Env, from: nat | Value(env, val) < Pow2(width) && Agree(Value(env, val), cases[0].value, checked)
      ensures Sends(b, node, d, cases, newDefault, val, env, from)
    {
      var v := Value(env, val);
      assert cases[0] in cases;
      if ByteAt(v, i) == byte {
        assert Agree(v, cases[0].value, checked[i := true]);
        assert Sends(a, bb, depth, cases, newDefault, val, env, node);
        FollowExtends(a, b, newDefault + 1, node, bb, env, depth, depth);
      } else {
        NoMatch(cases, newDefault, i, byte, v);
        assert Follow(b, newDefault + 1, node, newDefault, env, depth) == Some(Edge(node, newDefault));
      }
    }
  }

  /** The node itself has no edge into an original block; its subtree has moved the entries. */
  lemma EqMoved(a: seq<Block>, a1: seq<Block>, a2: seq<Block>, b: seq<Block>, cases: seq<Case>, orig: nat,
                newDefault: nat)
    requires orig < newDefault < |a| && |a1| == |a| + 1 && a1[..|a|] == a
    requires PhisReady(a, orig, newDefault, |a|, cases)
    requires AllMoved(a1, a2, orig, newDefault, |a1|, |a2|, cases) && |b| == |a2|
    requires forall p :: 0 <= p < |b| ==> b[p].phis == a2[p].phis && (p != |a| ==> b[p].term == a2[p].term)
    requires forall t :: 0 <= t < newDefault ==> EdgesInto(b[|a|].term, t) == 0
    ensures AllMoved(a, b, orig, newDefault, |a|, |b|, cases)
  {
    forall t, j | 0 <= t < newDefault && 0 <= j < |a[t].phis|
      ensures |b[t].phis| == |a[t].phis|
      ensures Moved(a[t].phis[j], b[t].phis[j], orig, b, |a|, |b|, t, Into(cases, t))
    {
      assert a1[t] == a1[..|a|][t] == a[t];
      var phi, k := a[t].phis[j], Into(cases, t);
      MovedNone(phi, orig, b, |a|, t);
      MovedAgree(phi, b[t].phis[j], orig, a2, b, |a1|, |a2|, t, k);
      MovedTwice(phi, phi, b[t].phis[j], orig, b, |a|, |a1|, |b|, t, 0, k);
    }
  }

  // ---- a test that splits the cases ----

  lemma LessDecides(a: seq<Block>, a3: seq<Block>, b: seq<Block>, node: nat, lbb: nat, rbb: nat, l: nat, r: nat,
                    cases: seq<Case>, i: nat, pivot: nat, newDefault: nat, val: nat, width: nat, checked: seq<bool>)
    requires cases != [] && newDefault < node < |b| && AllAgree(cases, cases[0].value, checked)
    requires Part(cases, i, pivot, true) != [] && Part(cases, i, pivot, false) != []
    requires Decides(a, lbb, l, Part(cases, i, pivot, true), newDefault, val, width, checked)
    requires Decides(a3, rbb, r, Part(cases, i, pivot, false), newDefault, val, width, checked)
    requires Extends(a, b) && Extends(a3, b) && b[node].term == ByteLess(val, i, pivot, lbb, rbb)
    ensures Decides(b, node, l + r + 1, cases, newDefault, val, width, checked)
  {
    hide Part, SwitchTarget, AllAgree, Agree, Pow2, ByteAt;
    var d := l + r + 1;
    forall env: Env, from: nat | Value(env, val) < Pow2(width) && Agree(Value(env, val), cases[0].value, checked)
      ensures Sends(b, node, d, cases, newDefault, val, env, from)
    {
      var v := Value(env, val);
      var below := ByteAt(v, i) < pivot;
      PartTarget(cases, newDefault, i, pivot, v, below);
      PartAgrees(cases, i, pivot, below, v, checked);
      if below {
        assert Sends(a, lbb, l, Part(cases, i, pivot, true), newDefault, val, env, node);
        FollowExtends(a, b, newDefault + 1, node, lbb, env, l, l + r);
      } else {
        assert Sends(a3, rbb, r, Part(cases, i, pivot, false), newDefault, val, env, node);
        FollowExtends(a3, b, newDefault + 1, node, rbb, env, r, l + r);
      }
    }
  }

  lemma EqConverted(a: seq<Block>, a1: seq<Block>, a2: seq<Block>, b: seq<Block>, node: nat, bb: nat, depth: nat,
                    cases: seq<Case>, i: nat, byte: nat, orig: nat, newDefault: nat, val: nat, width: nat,
                    checked: seq<bool>)
    requires node == |a| && a1 == a + [Block([], Unset)] && orig < newDefault < |a| && cases != []
    requires i < |checked| && !checked[i] && (forall c :: c in cases ==> ByteAt(c.value, i) == byte)
    requires Converted(a1, a2, bb, depth, cases, checked[i := true], orig, newDefault, val, width)
    requires forall k :: 0 <= k < |cases| ==> cases[k].dest < newDefault
    requires PhisReady(a, orig, newDefault, |a|, cases)
    requires b == a2[node := a2[node].(term := ByteEq(val, i, byte, bb, newDefault))]
    ensures Converted(a, b, node, depth + 1, cases, checked, orig, newDefault, val, width)
  {
    assert a1[..|a|] == a;
    EqMoved(a, a1, a2, b, cases, orig, newDefault);
    forall t | 0 <= t < newDefault
      ensures TotalEdges(b, |a|, |b|, t) == Into(cases, t)
    {
      TotalEdgesAgree(a2, b, |a1|, |a2|, t);
    }
    EqDecides(a2, b, node, bb, depth, cases, i, byte, newDefault, val, width, checked);
  }

  lemma PartAgrees(cases: seq<Case>, i: nat, pivot: nat, below: bool, v: nat, checked: seq<bool>)
    requires cases != [] && AllAgree(cases, cases[0].value, checked) && Part(cases, i, pivot, below) != []
    ensures AllAgree(Part(cases, i, pivot, below), Part(cases, i, pivot, below)[0].value, checked)
    ensures Agree(v, cases[0].value, checked) ==> Agree(v, Part(cases, i, pivot, below)[0].value, checked)
  {
    hide ByteAt;
    var part := Part(cases, i, pivot, below);
    forall j | 0 <= j < |part|
      ensures Agree(part[j].value, cases[0].value, checked)
    {
      PartOf(cases, i, pivot, below, part[j]);
    }
  }

  /** The second part can be converted after the first. */
  lemma RestReady(a1: seq<Block>, a2: seq<Block>, lhs: seq<Case>, rhs: seq<Case>, cases: seq<Case>, orig: nat,
                  newDefault: nat)
    requires PhisReady(a1, orig, newDefault, |a1|, cases)
    requires AllMoved(a1, a2, orig, newDefault, |a1|, |a2|, lhs)
    requires forall t :: 0 <= t < newDefault ==> Into(cases, t) == Into(lhs, t) + Into(rhs, t)
    ensures PhisReady(a2, orig, newDefault, |a2|, rhs)
  {
    forall t, j | 0 <= t < newDefault && 0 <= j < |a2[t].phis|
      ensures FromBelow(a2[t].phis[j], |a2|) && Count(a2[t].phis[j], orig) >= Into(rhs, t)
    {
      if |a1[t].phis| > 0 {
        assert Moved(a1[t].phis[0], a2[t].phis[0], orig, a2, |a1|, |a2|, t, Into(lhs, t));
      }
    }
  }

  // ---- what the recursive calls are given ----

  /** With all bytes checked, distinct cases that agree on them are one case. */
  lemma OneCaseLeft(cases: seq<Case>, checked: seq<bool>, i: nat, byte: nat, width: nat)
    requires cases != [] && Distinct(cases, width) && width <= 8 * |checked|
    requires AllAgree(cases, cases[0].value, checked) && i < |checked|
    requires forall c :: c in cases ==> ByteAt(c.value, i) == byte
    requires forall k :: 0 <= k < |checked| && k != i ==> checked[k]
    ensures |cases| == 1
  {
    if |cases| > 1 {
      assert cases[0] in cases && cases[1] in cases;
      AgreeIsEqual(cases[1].value, cases[0].value, seq(|checked|, _ => true), width);
    }
  }

  lemma EqConvertible(a: seq<Block>, a1: seq<Block>, cases: seq<Case>, checked: seq<bool>, i: nat, byte: nat,
                      after: seq<bool>, orig: nat, newDefault: nat, width: nat)
    requires Convertible(a, cases, checked, orig, newDefault, width)
    requires |a1| == |a| + 1 && a1[..|a|] == a && i < |checked| && !checked[i] && after == checked[i := true]
    requires forall c :: c in cases ==> ByteAt(c.value, i) == byte
    requires exists k :: 0 <= k < |after| && !after[k]
    ensures Convertible(a1, cases, after, orig, newDefault, width)
    ensures Unchecked(after) < Unchecked(checked)
  {
    CheckOne(checked, i);
    var k :| 0 <= k < |after| && !after[k];
    SomeUnchecked(after, k);
    ReadyAfterNode(a, a1, orig, newDefault, cases);
    assert forall j :: 0 <= j < |cases| ==> cases[j] in cases;
  }

  lemma ReadyAfterNode(a: seq<Block>, a1: seq<Block>, orig: nat, newDefault: nat, cases: seq<Case>)
    requires PhisReady(a, orig, newDefault, |a|, cases) && |a1| == |a| + 1 && a1[..|a|] == a
    ensures PhisReady(a1, orig, newDefault, |a1|, cases)
  {
    forall t | 0 <= t < newDefault
      ensures a1[t] == a[t]
    {
      assert a1[t] == a1[..|a|][t];
    }
  }

  lemma PartConvertible(a: seq<Block>, cases: seq<Case>, checked: seq<bool>, i: nat, pivot: nat, below: bool,
                        orig: nat, newDefault: nat, width: nat)
    requires cases != [] && Distinct(cases, width) && width <= 8 * |checked|
    requires AllAgree(cases, cases[0].value, checked) && Unchecked(checked) > 0
    requires orig < newDefault < |a| && (forall j :: 0 <= j < |cases| ==> cases[j].dest < newDefault)
    requires Part(cases, i, pivot, below) != []
    requires PhisReady(a, orig, newDefault, |a|, Part(cases, i, pivot, below))
    ensures Convertible(a, Part(cases, i, pivot, below), checked, orig, newDefault, width)
  {
    var part := Part(cases, i, pivot, below);
    PartDistinct(cases, i, pivot, below, width);
    PartAgrees(cases, i, pivot, below, 0, checked);
    forall j | 0 <= j < |part|
      ensures part[j].dest < newDefault
    {
      PartOf(cases, i, pivot, below, part[j]);
    }
  }

  lemma FewerInto(cases: seq<Case>, lhs: seq<Case>, a: seq<Block>, orig: nat, newDefault: nat)
    requires PhisReady(a, orig, newDefault, |a|, cases)
    requires forall t :: 0 <= t < newDefault ==> Into(lhs, t) <= Into(cases, t)
    ensures PhisReady(a, orig, newDefault, |a|, lhs)
  {
  }

  /** The two parts have moved the entries of their cases. */
  lemma LessMoved(a: seq<Block>, a1: seq<Block>, a2: seq<Block>, a3: seq<Block>, b: seq<Block>,
                  lhs: seq<Case>, rhs: seq<Case>, cases: seq<Case>, orig: nat, newDefault: nat)
    requires orig < newDefault < |a| && |a1| == |a| + 1 && a1[..|a|] == a
    requires PhisReady(a, orig, newDefault, |a|, cases)
    requires AllMoved(a1, a2, orig, newDefault, |a1|, |a2|, lhs)
    requires AllMoved(a2, a3, orig, newDefault, |a2|, |a3|, rhs) && |b| == |a3|
    requires forall p :: 0 <= p < |a2| ==> a3[p].term == a2[p].term
    requires forall p :: 0 <= p < |b| ==> b[p].phis == a3[p].phis && (p != |a| ==> b[p].term == a3[p].term)
    requires forall t :: 0 <= t < newDefault ==> EdgesInto(b[|a|].term, t) == 0
    requires forall t :: 0 <= t < newDefault ==> Into(cases, t) == Into(lhs, t) + Into(rhs, t)
    ensures AllMoved(a, b, orig, newDefault, |a|, |b|, cases)
  {
    forall t, j | 0 <= t < newDefault && 0 <= j < |a[t].phis|
      ensures Moved(a[t].phis[j], b[t].phis[j], orig, b, |a|, |b|, t, Into(cases, t))
    {
      assert a1[t] == a1[..|a|][t] == a[t];
      var phi, psi, chi, k, l := a[t].phis[j], a2[t].phis[j], b[t].phis[j], Into(lhs, t), Into(rhs, t);
      MovedNone(phi, orig, b, |a|, t);
      MovedAgree(phi, psi, orig, a2, b, |a1|, |a2|, t, k);
      MovedAgree(psi, chi, orig, a3, b, |a2|, |a3|, t, l);
      MovedTwice(phi, phi, psi, orig, b, |a|, |a1|, |a2|, t, 0, k);
      MovedTwice(phi, psi, chi, orig, b, |a|, |a2|, |b|, t, k, l);
    }
  }

  lemma {:induction false} LessConverted(
    a: seq<Block>, a1: seq<Block>, a2: seq<Block>, a3: seq<Block>, b: seq<Block>, node: nat,
    lbb: nat, rbb: nat, l: nat, r: nat, cases: seq<Case>, i: nat, pivot: nat,
    orig: nat, newDefault: nat, val: nat, width: nat, checked: seq<bool>)
    requires node == |a| && a1 == a + [Block([], Unset)] && orig < newDefault < |a|
    requires cases != [] && AllAgree(cases, cases[0].value, checked) && PhisReady(a, orig, newDefault, |a|, cases)
    requires Part(cases, i, pivot, true) != [] && Part(cases, i, pivot, false) != []
    requires Converted(a1, a2, lbb, l, Part(cases, i, pivot, true), checked, orig, newDefault, val, width)
    requires Converted(a2, a3, rbb, r, Part(cases, i, pivot, false), checked, orig, newDefault, val, width)
    requires b == a3[node := a3[node].(term := ByteLess(val, i, pivot, lbb, rbb))]
    ensures Converted(a, b, node, l + r + 1, cases, checked, orig, newDefault, val, width)
  {
    hide Decides, AllMoved, PhisReady, Part, AllAgree;
    assert a1[..|a|] == a;
    var lhs, rhs := Part(cases, i, pivot, true), Part(cases, i, pivot, false);
    forall t | 0 <= t < newDefault
      ensures Into(cases, t) == Into(lhs, t) + Into(rhs, t)
    {
      PartInto(cases, i, pivot, t);
    }
    LessMoved(a, a1, a2, a3, b, lhs, rhs, cases, orig, newDefault);
    forall t | 0 <= t < newDefault
      ensures TotalEdges(b, |a|, |b|, t) == Into(cases, t)
    {
      TotalEdgesAgree(a2, b, |a1|, |a2|, t);
      TotalEdgesAgree(a3, b, |a2|, |a3|, t);
      TotalEdgesSum(b, |a1|, |a2|, |a3|, t);
    }
    LessDecides(a2, a3, b, node, lbb, rbb, l, r, cases, i, pivot, newDefault, val, width, checked);
  }

  lemma OnlyByte(cases: seq<Case>, i: nat, byte: nat)
    requires |BytesOf(cases, i)| == 1 && byte in BytesOf(cases, i)
    ensures forall c :: c in cases ==> ByteAt(c.value, i) == byte
  {
    forall c | c in cases
      ensures ByteAt(c.value, i) == byte
    {
      if ByteAt(c.value, i) != byte {
        assert {byte, ByteAt(c.value, i) as nat} <= BytesOf(cases, i);
        SubsetSmaller({byte, ByteAt(c.value, i) as nat}, BytesOf(cases, i));
      }
    }
  }

  lemma {:induction false} SubsetSmaller(s: set<nat>, t: set<nat>)
    requires s <= t
    ensures |s| <= |t|
  {
    if x :| x in s {
      SubsetSmaller(s - {x}, t - {x});
    }
  }

  lemma AtLeastTwo(s: set<nat>, v: seq<nat>, cases: seq<Case>, i: nat)
    requires cases != [] && s == BytesOf(cases, i) && |s| != 1
    requires forall x :: x in s <==> x in v
    ensures |v| >= 2
  {
    var x: nat := ByteAt(cases[0].value, i);
    assert cases[0] in cases;
    assert x in s && s != {x};
    var y :| y in s && y != x;
    assert x in v && y in v;
  }

  class Function {
    var blocks: seq<Block>

    constructor (blocks: seq<Block>)
      ensures this.blocks == blocks
    {
      this.blocks := blocks;
    }

    method Create(term: Terminator) returns (b: nat)
      modifies this
      ensures b == |old(blocks)| && blocks == old(blocks) + [Block([], term)]
    {
      b := |blocks|;
      blocks := blocks + [Block([], term)];
    }

    method SetTerminator(b: nat, term: Terminator)
      requires b < |blocks|
      modifies this
      ensures blocks == old(blocks)[b := old(blocks)[b].(term := term)]
    {
      blocks := blocks[b := blocks[b].(term := term)];
    }

    /** In each phi of `t`, the first entry of `was` now comes from `now`. */
    method UpdatePhis(t: nat, was: nat, now: nat)
      requires t < |blocks|
      modifies this
      ensures blocks == old(blocks)[t := old(blocks)[t].(phis := ReplaceAll(old(blocks)[t].phis, was, now))]
    {
      var phis := UpdateAll(blocks[t].phis, was, now);
      blocks := blocks[t := blocks[t].(phis := phis)];
    }

    /** switchConvert. The value passed for `bytesChecked` is a copy; `width` is that of the case values. */
    method SwitchConvert(cases: seq<Case>, bytesChecked: seq<bool>, orig: nat, newDefault: nat, val: nat,
                         ghost width: nat)
      returns (node: nat, ghost depth: nat)
      requires Convertible(blocks, cases, bytesChecked, orig, newDefault, width)
      modifies this
      ensures Converted(old(blocks), blocks, node, depth, cases, bytesChecked, orig, newDefault, val, width)
      decreases |cases|, Unchecked(bytesChecked), 1
    {
      var byteSets := ByteSets(cases, |bytesChecked|);
      var smallestIndex, smallestSize := Smallest(byteSets, bytesChecked);
      assert !bytesChecked[smallestIndex];
      if smallestSize == 1 {
        var byte :| byte in byteSets[smallestIndex];
        OnlyByte(cases, smallestIndex, byte);
        node, depth := ConvertEq(cases, bytesChecked, smallestIndex, byte, orig, newDefault, val, width);
      } else {
        var byteVector := Sorted(byteSets[smallestIndex]);
        AtLeastTwo(byteSets[smallestIndex], byteVector, cases, smallestIndex);
        var pivot := byteVector[|byteVector| / 2];
        BothSides(cases, smallestIndex, byteVector);
        node, depth := ConvertLess(cases, bytesChecked, smallestIndex, pivot, orig, newDefault, val, width);
      }
    }

    /** All cases have the same byte at position `i`. */
    method ConvertEq(cases: seq<Case>, bytesChecked: seq<bool>, i: nat, byte: nat, orig: nat, newDefault: nat,
                     val: nat, ghost width: nat)
      returns (node: nat, ghost depth: nat)
      requires Convertible(blocks, cases, bytesChecked, orig, newDefault, width)
      requires i < |bytesChecked| && !bytesChecked[i] && forall c :: c in cases ==> ByteAt(c.value, i) == byte
      modifies this
      ensures Converted(old(blocks), blocks, node, depth, cases, bytesChecked, orig, newDefault, val, width)
      decreases |cases|, Unchecked(bytesChecked), 0
    {
      ghost var a := blocks;
      node := Create(Unset);
      ghost var a1 := blocks;
      assert a1[..|a|] == a;
      var checked := bytesChecked[i := true];
      var allBytesAreChecked := AllChecked(checked);
      if allBytesAreChecked {
        assert forall b :: 0 <= b < |checked| && b != i ==> checked[b] == bytesChecked[b];
        OneCaseLeft(cases, bytesChecked, i, byte, width);
        assert cases == [cases[0]] && cases[0] in cases;
        Leaf(a, node, cases[0], bytesChecked, i, orig, newDefault, val, width);
        depth := 1;
      } else {
        EqConvertible(a, a1, cases, bytesChecked, i, byte, checked, orig, newDefault, width);
        var bb;
        bb, depth := SwitchConvert(cases, checked, orig, newDefault, val, width);
        ghost var a2 := blocks;
        SetTerminator(node, ByteEq(val, i, byte, bb, newDefault));
        EqConverted(a, a1, a2, blocks, node, bb, depth, cases, i, byte, orig, newDefault, val, width, bytesChecked);
        depth := depth + 1;
      }
    }

    /** The node branches to the block of the only case left, and takes one of its phi entries. */
    method Leaf(ghost a: seq<Block>, node: nat, c: Case, ghost checked: seq<bool>, i: nat, orig: nat, newDefault: nat,
                val: nat, ghost width: nat)
      requires node == |a| && blocks == a + [Block([], Unset)] && orig < newDefault < |a| && c.dest < newDefault
      requires PhisReady(a, orig, newDefault, |a|, [c]) && c.value < Pow2(width) && width <= 8 * |checked|
      requires i < |checked| && forall k :: 0 <= k < |checked| && k != i ==> checked[k]
      modifies this
      ensures Converted(a, blocks, node, 1, [c], checked, orig, newDefault, val, width)
    {
      SetTerminator(node, ByteEq(val, i, ByteAt(c.value, i), c.dest, newDefault));
      UpdatePhis(c.dest, orig, node);
      assert forall t :: 0 <= t < newDefault ==> EdgesInto(blocks[node].term, t) == Into([c], t);
      LeafMoved(a, blocks, c, orig, newDefault);
      LeafDecides(blocks, node, c, i, newDefault, val, width, checked);
    }

    /** Cases are on both sides of `pivot` at position `i`. */
    method ConvertLess(cases: seq<Case>, bytesChecked: seq<bool>, i: nat, pivot: nat, orig: nat, newDefault: nat,
                       val: nat, ghost width: nat)
      returns (node: nat, ghost depth: nat)
      requires Convertible(blocks, cases, bytesChecked, orig, newDefault, width)
      requires 0 < |Part(cases, i, pivot, true)| < |cases| && 0 < |Part(cases, i, pivot, false)| < |cases|
      modifies this
      ensures Converted(old(blocks), blocks, node, depth, cases, bytesChecked, orig, newDefault, val, width)
      decreases |cases|, Unchecked(bytesChecked), 0
    {
      hide Decides, AllMoved, PhisReady, Part, AllAgree, Distinct;
      ghost var a := blocks;
      node := Create(Unset);
      ghost var a1 := blocks;
      assert a1[..|a|] == a;
      var lhsCases, rhsCases := Split(cases, i, pivot);
      forall t | 0 <= t < newDefault
        ensures Into(cases, t) == Into(lhsCases, t) + Into(rhsCases, t)
      {
        PartInto(cases, i, pivot, t);
      }
      ReadyAfterNode(a, a1, orig, newDefault, cases);
      FewerInto(cases, lhsCases, a1, orig, newDefault);
      PartConvertible(a1, cases, bytesChecked, i, pivot, true, orig, newDefault, width);
      var lbb, rbb;
      ghost var l, r;
      lbb, l := SwitchConvert(lhsCases, bytesChecked, orig, newDefault, val, width);
      ghost var a2 := blocks;
      RestReady(a1, a2, lhsCases, rhsCases, cases, orig, newDefault);
      PartConvertible(a2, cases, bytesChecked, i, pivot, false, orig, newDefault, width);
      rbb, r := SwitchConvert(rhsCases, bytesChecked, orig, newDefault, val, width);
      ghost var a3 := blocks;
      SetTerminator(node, ByteLess(val, i, pivot, lbb, rbb));
      depth := l + r + 1;
      LessConverted(a, a1, a2, a3, blocks, node, lbb, rbb, l, r, cases, i, pivot, orig, newDefault, val, width,
                    bytesChecked);
    }
  }
}
