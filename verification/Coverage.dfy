/**
 * What the coverage maps mean, byte by byte and over a whole history of traces; and tables that
 * classify hit counts, whatever the classes are.
 */
module Coverage {

  /** Whether two bytes share a bit. */
  predicate Share(x: bv8, y: bv8) { x & y != 0 }

  function Or(x: bv8, y: bv8): bv8 { x | y }

  function Without(x: bv8, y: bv8): bv8 { x & !y }

  function Not(x: bv8): bv8 { !x }

  /** Everything that a history of traces has set in byte i. */
  function Union(history: seq<seq<bv8>>, i: nat): bv8
    requires forall k :: 0 <= k < |history| ==> i < |history[k]|
  {
    if history == [] then 0 else Or(Union(history[..|history| - 1], i), history[|history| - 1][i])
  }

  ghost predicate Sized(history: seq<seq<bv8>>, n: nat) {
    forall k :: 0 <= k < |history| ==> |history[k]| == n
  }

  /** The virgin map is the complement of all that was seen. */
  ghost predicate Complements(virgin: seq<bv8>, history: seq<seq<bv8>>) {
    && Sized(history, |virgin|)
    && forall i :: 0 <= i < |virgin| ==> virgin[i] == Not(Union(history, i))
  }

  /** A trace is worth 2 if it sets a byte that no trace has set, 1 if only new bits in others, else 0. */
  ghost function Novelty(history: seq<seq<bv8>>, trace: seq<bv8>): int
    requires Sized(history, |trace|)
  {
    if exists i :: 0 <= i < |trace| && trace[i] != 0 && FirstHit(history, i) then 2
    else if exists i, b: bv8 :: 0 <= i < |trace| && Share(trace[i], b) && NewBits(history, i, b) then 1
    else 0
  }

  ghost predicate FirstHit(history: seq<seq<bv8>>, i: nat)
    requires forall k :: 0 <= k < |history| ==> i < |history[k]|
  {
    forall k :: 0 <= k < |history| ==> history[k][i] == 0
  }

  /** No trace of the history has any of the bits b in byte i. */
  ghost predicate NewBits(history: seq<seq<bv8>>, i: nat, b: bv8)
    requires forall k :: 0 <= k < |history| ==> i < |history[k]|
  {
    forall k :: 0 <= k < |history| ==> !Share(history[k][i], b)
  }

  lemma {:induction false} UnionLacks(history: seq<seq<bv8>>, i: nat, b: bv8)
    requires forall k :: 0 <= k < |history| ==> i < |history[k]|
    ensures NewBits(history, i, b) <==> !Share(Union(history, i), b)
  {
    hide Share, Or;
    if history == [] {
      ZeroLacks(b);
    } else {
      var n := |history| - 1;
      var earlier := history[..n];
      UnionLacks(earlier, i, b);
      assert forall k :: 0 <= k < n ==> earlier[k] == history[k];
      OrLacks(Union(earlier, i), history[n][i], b);
      if NewBits(earlier, i, b) && !Share(history[n][i], b) {
        assert NewBits(history, i, b);
      }
      if NewBits(history, i, b) {
        assert NewBits(earlier, i, b);
      }
    }
  }

  lemma ZeroLacks(b: bv8)
    ensures !Share(0, b)
  {
  }

  lemma OrLacks(x: bv8, y: bv8, b: bv8)
    ensures Share(Or(x, y), b) <==> Share(x, b) || Share(y, b)
  {
  }

  lemma UnionEmpty(history: seq<seq<bv8>>, i: nat)
    requires forall k :: 0 <= k < |history| ==> i < |history[k]|
    ensures FirstHit(history, i) <==> Union(history, i) == 0
  {
    UnionLacks(history, i, 0xff);
    AllBits(Union(history, i));
    forall k | 0 <= k < |history|
      ensures Share(history[k][i], 0xff) <==> history[k][i] != 0
    {
      AllBits(history[k][i]);
    }
    hide Share, Or;
    if NewBits(history, i, 0xff) {
      assert FirstHit(history, i);
    }
  }

  lemma AllBits(x: bv8)
    ensures Share(x, 0xff) <==> x != 0
  {
  }

  // ---- the same in terms of the virgin map ----

  ghost predicate Pristine(virgin: seq<bv8>, trace: seq<bv8>, from: nat, to: nat)
    requires from <= to <= |virgin| == |trace|
  {
    exists i :: from <= i < to && trace[i] != 0 && virgin[i] == 0xff
  }

  ghost predicate Fresh(virgin: seq<bv8>, trace: seq<bv8>, from: nat, to: nat)
    requires from <= to <= |virgin| == |trace|
  {
    exists i :: from <= i < to && Share(trace[i], virgin[i])
  }

  ghost function Verdict(virgin: seq<bv8>, trace: seq<bv8>, to: nat): int
    requires to <= |virgin| == |trace|
  {
    if Pristine(virgin, trace, 0, to) then 2 else if Fresh(virgin, trace, 0, to) then 1 else 0
  }

  /** Testing against the virgin map decides novelty against the whole history. */
  lemma VerdictIsNovelty(virgin: seq<bv8>, history: seq<seq<bv8>>, trace: seq<bv8>)
    requires Complements(virgin, history) && |trace| == |virgin|
    ensures Verdict(virgin, trace, |trace|) == Novelty(history, trace)
  {
    hide Share, Not, FirstHit, NewBits;
    forall i | 0 <= i < |trace|
      ensures FirstHit(history, i) <==> virgin[i] == 0xff
      ensures Share(trace[i], virgin[i]) <==> exists b: bv8 :: Share(trace[i], b) && NewBits(history, i, b)
    {
      ByteVerdict(history, i, trace[i]);
    }
  }

  /** The virgin byte of i decides both questions about the history. */
  lemma ByteVerdict(history: seq<seq<bv8>>, i: nat, t: bv8)
    requires forall k :: 0 <= k < |history| ==> i < |history[k]|
    ensures FirstHit(history, i) <==> Not(Union(history, i)) == 0xff
    ensures Share(t, Not(Union(history, i))) <==> exists b: bv8 :: Share(t, b) && NewBits(history, i, b)
  {
    var u := Union(history, i);
    UnionEmpty(history, i);
    UnionLacks(history, i, Not(u));
    NotLacks(u);
    hide Share, Not, FirstHit, NewBits;
    forall b: bv8 | Share(t, b) && NewBits(history, i, b)
      ensures Share(t, Not(u))
    {
      UnionLacks(history, i, b);
      ShareThrough(t, u, b);
    }
  }

  lemma NotLacks(u: bv8)
    ensures !Share(u, Not(u)) && (Not(u) == 0xff <==> u == 0)
  {
  }

  lemma ShareThrough(t: bv8, u: bv8, b: bv8)
    requires Share(t, b) && !Share(u, b)
    ensures Share(t, Not(u))
  {
  }

  /** What the word-wise update of the virgin map does to its meaning. */
  lemma ComplementsNext(virgin: seq<bv8>, history: seq<seq<bv8>>, trace: seq<bv8>, after: seq<bv8>)
    requires Complements(virgin, history) && |trace| == |virgin| == |after|
    requires forall i :: 0 <= i < |after| ==> after[i] == Without(virgin[i], trace[i])
    ensures Complements(after, history + [trace])
  {
    var longer := history + [trace];
    assert longer[..|history|] == history;
    hide Or, Not, Without;
    forall i | 0 <= i < |after|
      ensures after[i] == Not(Union(longer, i))
    {
      OrComplement(Union(history, i), trace[i]);
    }
  }

  lemma OrComplement(u: bv8, t: bv8)
    ensures Without(Not(u), t) == Not(Or(u, t))
  {
  }

  /** Without new bits there is nothing to take away. */
  lemma Untouched(v: bv8, t: bv8)
    requires !Share(t, v)
    ensures Without(v, t) == v
  {
  }

  // ---- the verdict, word by word ----

  lemma VerdictStart(virgin: seq<bv8>, trace: seq<bv8>)
    requires |virgin| == |trace|
    ensures Verdict(virgin, trace, 0) == 0
  {
  }

  lemma VerdictStep(virgin: seq<bv8>, trace: seq<bv8>, at: nat, next: nat)
    requires at <= next <= |virgin| == |trace|
    ensures var was := Verdict(virgin, trace, at);
            Verdict(virgin, trace, next)
            == if was >= 2 || !Fresh(virgin, trace, at, next) then was
               else if Pristine(virgin, trace, at, next) then 2 else 1
  {
    PristineIsFresh(virgin, trace, at, next);
    hide Share;
    assert Fresh(virgin, trace, 0, next) <==> Fresh(virgin, trace, 0, at) || Fresh(virgin, trace, at, next);
    assert Pristine(virgin, trace, 0, next) <==> Pristine(virgin, trace, 0, at) || Pristine(virgin, trace, at, next);
  }

  lemma PristineIsFresh(virgin: seq<bv8>, trace: seq<bv8>, at: nat, next: nat)
    requires at <= next <= |virgin| == |trace|
    ensures Pristine(virgin, trace, at, next) ==> Fresh(virgin, trace, at, next)
  {
    if Pristine(virgin, trace, at, next) {
      var i :| at <= i < next && trace[i] != 0 && virgin[i] == 0xff;
      AllBits(trace[i]);
    }
  }

  /** The verdict on a stretch depends on that stretch of the map alone. */
  lemma SameThere(virgin: seq<bv8>, other: seq<bv8>, trace: seq<bv8>, at: nat, next: nat)
    requires at <= next <= |virgin| == |trace| == |other|
    requires forall i :: at <= i < next ==> virgin[i] == other[i]
    ensures Fresh(virgin, trace, at, next) == Fresh(other, trace, at, next)
    ensures Pristine(virgin, trace, at, next) == Pristine(other, trace, at, next)
  {
    hide Share;
  }

  lemma NothingSet(virgin: seq<bv8>, trace: seq<bv8>, at: nat, next: nat)
    requires at <= next <= |virgin| == |trace|
    requires forall i :: at <= i < next ==> trace[i] == 0
    ensures !Fresh(virgin, trace, at, next)
    ensures forall i :: at <= i < next ==> Without(virgin[i], trace[i]) == virgin[i]
  {
    forall i | at <= i < next
      ensures !Share(trace[i], virgin[i]) && Without(virgin[i], trace[i]) == virgin[i]
    {
      ZeroLacks(virgin[i]);
      Untouched(virgin[i], trace[i]);
    }
    hide Share, Without;
  }

  /** The search for new bits can stop at the first. */
  lemma FreshSplits(virgin: seq<bv8>, trace: seq<bv8>, at: nat, next: nat)
    requires at <= next <= |virgin| == |trace|
    ensures Fresh(virgin, trace, 0, next) <==> Fresh(virgin, trace, 0, at) || Fresh(virgin, trace, at, next)
  {
    hide Share;
  }

  lemma FreshGrows(virgin: seq<bv8>, trace: seq<bv8>, at: nat, next: nat)
    requires at <= next <= |virgin| == |trace|
    ensures Fresh(virgin, trace, 0, at) ==> Fresh(virgin, trace, 0, next)
  {
    hide Share;
  }

  lemma FreshSpreads(virgin: seq<bv8>, trace: seq<bv8>, next: nat)
    requires next <= |virgin| == |trace|
    requires Fresh(virgin, trace, 0, next)
    ensures Fresh(virgin, trace, 0, |trace|)
  {
    hide Share;
  }

  lemma FreshNowhere(virgin: seq<bv8>, trace: seq<bv8>)
    requires |virgin| == |trace|
    ensures !Fresh(virgin, trace, 0, 0)
  {
  }

  /** Where nothing is fresh, the trace adds nothing. */
  lemma NothingFresh(virgin: seq<bv8>, history: seq<seq<bv8>>, trace: seq<bv8>)
    requires Complements(virgin, history) && |trace| == |virgin|
    ensures !Fresh(virgin, trace, 0, |trace|) <==> Novelty(history, trace) == 0
    ensures !Fresh(virgin, trace, 0, |trace|) ==> Complements(virgin, history + [trace])
  {
    VerdictIsNovelty(virgin, history, trace);
    PristineIsFresh(virgin, trace, 0, |trace|);
    hide Share, Complements, Novelty, Without;
    if !Fresh(virgin, trace, 0, |trace|) {
      forall i | 0 <= i < |trace|
        ensures virgin[i] == Without(virgin[i], trace[i])
      {
        Untouched(virgin[i], trace[i]);
      }
      ComplementsNext(virgin, history, trace, virgin);
    }
  }

  /** The same trace again is worth nothing. */
  lemma NeverTwice(history: seq<seq<bv8>>, trace: seq<bv8>, later: seq<seq<bv8>>)
    requires Sized(history + [trace] + later, |trace|)
    ensures Novelty(history + [trace] + later, trace) == 0
  {
    var all := history + [trace] + later;
    assert all[|history|] == trace;
  }

  // ---- the tables ----

  /** A class for each hit count. */
  type ClassTable = t: seq<bv8> | |t| == 256 witness seq(256, _ => 0)

  function Classified(look: ClassTable, n: bv8): bv8 { look[n as nat] }

  function ClassifiedMap(look: ClassTable, trace: seq<bv8>): (c: seq<bv8>)
    ensures |c| == |trace| && forall i :: 0 <= i < |c| ==> c[i] == Classified(look, trace[i])
  {
    seq(|trace|, i requires 0 <= i < |trace| => Classified(look, trace[i]))
  }

  lemma ClassOfZero(look: ClassTable)
    ensures Classified(look, 0) == look[0]
  {
  }

  /** simplify_lookup */
  function Simplified(n: bv8): bv8 { if n == 0 then 1 else 128 }

  function Pair(b0: bv8, b1: bv8): bv16 { (b0 as bv16) | (b1 as bv16 << 8) }

  /** The table entry for a pair of counts. */
  function Look(table: seq<bv16>, b0: bv8, b1: bv8): bv16
    requires |table| == 0x1_0000
  {
    table[Pair(b0, b1) as nat]
  }

  lemma PairIndex(b0: bv8, b1: bv8)
    ensures Pair(b0, b1) as nat == 256 * (b1 as nat) + b0 as nat
  {
    ShiftedIndex(b0, b1);
    var p := (b0 as bv16) | (b1 as bv16 << 8);
    assert Pair(b0, b1) == p;
    hide Pair;
  }

  lemma ShiftedIndex(b0: bv8, b1: bv8)
    ensures ((b0 as bv16) | (b1 as bv16 << 8)) as nat == 256 * (b1 as nat) + b0 as nat
  {
  }

  /** The table classifies two counts at once. */
  ghost predicate TwoAtOnce(table: seq<bv16>, look: ClassTable) {
    && |table| == 0x1_0000
    && forall b0, b1 :: Look(table, b0, b1) == Pair(Classified(look, b0), Classified(look, b1))
  }

  /** What belongs at index i of the table. */
  function TwoClasses(look: ClassTable, i: nat): bv16
    requires i < 0x1_0000
  {
    Pair(look[i % 256], look[i / 256])
  }

  method InitCountClass16(look: ClassTable) returns (table: array<bv16>)
    ensures fresh(table) && table.Length == 0x1_0000 && TwoAtOnce(table[..], look)
  {
    hide Pair, TwoClasses, TwoAtOnce;
    table := new bv16[0x1_0000](_ => 0);
    for b1 := 0 to 256
      invariant forall i :: 0 <= i < 256 * b1 ==> table[i] == TwoClasses(look, i)
    {
      for b2 := 0 to 256
        invariant forall i :: 0 <= i < 256 * b1 + b2 ==> table[i] == TwoClasses(look, i)
      {
        EntryFor(look, b1, b2);
        table[256 * b1 + b2] := Pair(look[b2], look[b1]);
      }
    }
    Complete(table[..], look);
  }

  lemma EntryFor(look: ClassTable, b1: nat, b2: nat)
    requires b1 < 256 && b2 < 256
    ensures TwoClasses(look, 256 * b1 + b2) == Pair(look[b2], look[b1])
  {
    hide Pair;
    assert (256 * b1 + b2) % 256 == b2 && (256 * b1 + b2) / 256 == b1;
  }

  lemma Complete(table: seq<bv16>, look: ClassTable)
    requires |table| == 0x1_0000 && forall i :: 0 <= i < 0x1_0000 ==> table[i] == TwoClasses(look, i)
    ensures TwoAtOnce(table, look)
  {
    hide Pair, TwoClasses;
    forall b0: bv8, b1: bv8
      ensures Look(table, b0, b1) == Pair(Classified(look, b0), Classified(look, b1))
    {
      PairIndex(b0, b1);
      EntryFor(look, b1 as nat, b0 as nat);
    }
  }
}
