/**
 * Rewiring phi entries: replacing the first entry of one predecessor, and what a series of
 * such replacements amounts to.
 */
module PhiMoves {
  import opened Words
  import opened Ir

  /** The first entry of `old` now comes from `new`. */
  function ReplaceFirst(phi: Phi, was: nat, now: nat): Phi {
    if phi == [] then []
    else if phi[0].from == was then [phi[0].(from := now)] + phi[1..]
    else [phi[0]] + ReplaceFirst(phi[1..], was, now)
  }

  lemma {:induction false} ReplaceFirstEntries(phi: Phi, was: nat, now: nat)
    ensures |ReplaceFirst(phi, was, now)| == |phi|
    ensures forall i :: 0 <= i < |phi| ==>
              ReplaceFirst(phi, was, now)[i] == phi[i]
              || (phi[i].from == was && ReplaceFirst(phi, was, now)[i] == phi[i].(from := now))
  {
    if phi != [] && phi[0].from != was {
      ReplaceFirstEntries(phi[1..], was, now);
    }
  }

  lemma CountCons(x: Incoming, rest: Phi, from: nat)
    ensures Count([x] + rest, from) == (if x.from == from then 1 else 0) + Count(rest, from)
  {
    assert ([x] + rest)[1..] == rest;
  }

  lemma {:induction false} ReplaceFirstCounts(phi: Phi, was: nat, now: nat, p: nat)
    requires was != now && Count(phi, was) > 0
    ensures Count(ReplaceFirst(phi, was, now), p)
         == Count(phi, p) + (if p == now then 1 else 0) - (if p == was then 1 else 0)
  {
    if phi[0].from == was {
      CountCons(phi[0].(from := now), phi[1..], p);
    } else {
      CountCons(phi[0], ReplaceFirst(phi[1..], was, now), p);
      ReplaceFirstCounts(phi[1..], was, now, p);
    }
  }

  /** Every entry comes from a block below `n`. */
  ghost predicate FromBelow(phi: Phi, n: nat) {
    forall i :: 0 <= i < |phi| ==> phi[i].from < n
  }

  /** In place, and with their values, some entries of `orig` now come from blocks `lo` to `hi`. */
  ghost predicate Rewired(phi: Phi, psi: Phi, orig: nat, lo: nat, hi: nat) {
    |phi| == |psi|
    && forall i :: 0 <= i < |phi| ==>
         psi[i] == phi[i] || (phi[i].from == orig && psi[i].value == phi[i].value && lo <= psi[i].from < hi)
  }

  /** `k` entries of `orig` have moved, one to each edge that the blocks `lo` to `hi` have into `t`. */
  ghost predicate Moved(phi: Phi, psi: Phi, orig: nat, blocks: seq<Block>, lo: nat, hi: nat, t: nat, k: nat) {
    && hi <= |blocks|
    && Rewired(phi, psi, orig, lo, hi)
    && Count(phi, orig) == Count(psi, orig) + k
    && forall p :: lo <= p < hi ==> Count(psi, p) == EdgesInto(blocks[p].term, t)
  }

  lemma {:induction false} CountZero(phi: Phi, p: nat)
    requires forall i :: 0 <= i < |phi| ==> phi[i].from != p
    ensures Count(phi, p) == 0
  {
    if phi != [] {
      CountZero(phi[1..], p);
    }
  }

  /** Entries of other predecessors are as they were. */
  lemma RewiredKeeps(phi: Phi, psi: Phi, orig: nat, lo: nat, hi: nat, p: nat)
    requires Rewired(phi, psi, orig, lo, hi) && p != orig && p < lo
    ensures Count(psi, p) == Count(phi, p) && PhiValue(psi, p) == PhiValue(phi, p)
  {
    SameEntries(phi, psi, p);
  }

  lemma RewiredBelow(phi: Phi, psi: Phi, orig: nat, lo: nat, hi: nat)
    requires Rewired(phi, psi, orig, lo, hi) && FromBelow(phi, lo) && lo <= hi
    ensures FromBelow(psi, hi)
  {
  }

  lemma MovedTwice(phi: Phi, psi: Phi, chi: Phi, orig: nat, blocks: seq<Block>, lo: nat, mid: nat, hi: nat, t: nat,
                   k: nat, l: nat)
    requires orig < lo <= mid <= hi
    requires Moved(phi, psi, orig, blocks, lo, mid, t, k)
    requires Moved(psi, chi, orig, blocks, mid, hi, t, l)
    ensures Moved(phi, chi, orig, blocks, lo, hi, t, k + l)
  {
    forall p | lo <= p < mid
      ensures Count(chi, p) == EdgesInto(blocks[p].term, t)
    {
      RewiredKeeps(psi, chi, orig, mid, hi, p);
    }
  }

  /** A block without an edge into `t` needs no entry. */
  lemma MovedNone(phi: Phi, orig: nat, blocks: seq<Block>, lo: nat, t: nat)
    requires FromBelow(phi, lo) && lo < |blocks| && EdgesInto(blocks[lo].term, t) == 0
    ensures Moved(phi, phi, orig, blocks, lo, lo + 1, t, 0)
  {
    CountZero(phi, lo);
  }

  /** One edge takes one entry. */
  lemma MovedOne(phi: Phi, orig: nat, blocks: seq<Block>, lo: nat, t: nat)
    requires FromBelow(phi, lo) && orig < lo < |blocks| && EdgesInto(blocks[lo].term, t) == 1
    requires Count(phi, orig) > 0
    ensures Moved(phi, ReplaceFirst(phi, orig, lo), orig, blocks, lo, lo + 1, t, 1)
  {
    CountZero(phi, lo);
    ReplaceFirstEntries(phi, orig, lo);
    ReplaceFirstCounts(phi, orig, lo, orig);
    ReplaceFirstCounts(phi, orig, lo, lo);
  }

  /** Only the terminators of the blocks from `lo` on matter. */
  lemma MovedAgree(phi: Phi, psi: Phi, orig: nat, a: seq<Block>, b: seq<Block>, lo: nat, hi: nat, t: nat, k: nat)
    requires Moved(phi, psi, orig, a, lo, hi, t, k) && hi <= |b|
    requires forall p :: lo <= p < hi ==> a[p].term == b[p].term
    ensures Moved(phi, psi, orig, b, lo, hi, t, k)
  {
  }

  /** A block that has an edge into `t` finds there the value `orig` used to bring. */
  lemma MovedValue(phi: Phi, psi: Phi, orig: nat, blocks: seq<Block>, lo: nat, hi: nat, t: nat, k: nat, p: nat)
    requires Moved(phi, psi, orig, blocks, lo, hi, t, k) && FromBelow(phi, lo)
    requires lo <= p < hi && EdgesInto(blocks[p].term, t) > 0
    requires forall i, j :: 0 <= i < |phi| && 0 <= j < |phi| && phi[i].from == orig && phi[j].from == orig ==>
               phi[i].value == phi[j].value
    ensures PhiValue(psi, p) == PhiValue(phi, orig) && PhiValue(psi, p).Some?
  {
    CountPositive(psi, p);
    var i :| 0 <= i < |psi| && psi[i].from == p;
    assert phi[i].from == orig;
    CountPositive(phi, orig);
    var v := phi[i].value;
    assert forall j :: 0 <= j < |psi| && psi[j].from == p ==> phi[j].from == orig;
    PhiValueFound(psi, p, v);
    PhiValueFound(phi, orig, v);
  }

  // ---- all phis of a block ----

  function ReplaceAll(phis: seq<Phi>, was: nat, now: nat): seq<Phi> {
    seq(|phis|, j requires 0 <= j < |phis| => ReplaceFirst(phis[j], was, now))
  }

  /** In each phi, the first entry of `was` is set to come from `now`. */
  method UpdateFirst(phi: Phi, was: nat, now: nat) returns (psi: Phi)
    ensures psi == ReplaceFirst(phi, was, now)
  {
    psi := phi;
    var idx := 0;
    while idx != |phi|
      invariant 0 <= idx <= |phi| && psi == phi
      invariant ReplaceFirst(phi, was, now) == phi[..idx] + ReplaceFirst(phi[idx..], was, now)
      decreases |phi| - idx
    {
      if phi[idx].from == was {
        psi := psi[idx := psi[idx].(from := now)];
        assert psi == phi[..idx] + ([phi[idx].(from := now)] + phi[idx..][1..]);
        return;
      }
      assert phi[idx..][1..] == phi[idx + 1..];
      assert phi[..idx] + ([phi[idx]] + ReplaceFirst(phi[idx + 1..], was, now))
          == phi[..idx + 1] + ReplaceFirst(phi[idx + 1..], was, now);
      idx := idx + 1;
    }
  }

  method UpdateAll(phis: seq<Phi>, was: nat, now: nat) returns (r: seq<Phi>)
    ensures r == ReplaceAll(phis, was, now)
  {
    r := [];
    for j := 0 to |phis|
      invariant |r| == j && forall i :: 0 <= i < j ==> r[i] == ReplaceFirst(phis[i], was, now)
    {
      var psi := UpdateFirst(phis[j], was, now);
      r := r + [psi];
    }
  }
}
