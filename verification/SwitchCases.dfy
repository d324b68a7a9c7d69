/**
 * Lists of switch cases seen byte by byte: splitting them at one byte position, and what
 * agreeing on bytes says about a value.
 */
module SwitchCases {
  import opened Words
  import opened Ir

  /** Cases of one switch over values of `width` bits. */
  ghost predicate Distinct(cases: seq<Case>, width: nat) {
    && (forall i :: 0 <= i < |cases| ==> cases[i].value < Pow2(width))
    && (forall i, j :: 0 <= i < j < |cases| ==> cases[i].value != cases[j].value)
  }

  /** `x` and `y` have the same byte at every checked position. */
  ghost predicate Agree(x: nat, y: nat, checked: seq<bool>) {
    forall b :: 0 <= b < |checked| && checked[b] ==> ByteAt(x, b) == ByteAt(y, b)
  }

  ghost predicate AllAgree(cases: seq<Case>, x: nat, checked: seq<bool>) {
    forall i :: 0 <= i < |cases| ==> Agree(cases[i].value, x, checked)
  }

  function Unchecked(checked: seq<bool>): nat {
    if checked == [] then 0 else (if checked[0] then 0 else 1) + Unchecked(checked[1..])
  }

  lemma {:induction false} CheckOne(checked: seq<bool>, i: nat)
    requires i < |checked| && !checked[i]
    ensures Unchecked(checked[i := true]) + 1 == Unchecked(checked)
  {
    var after := checked[i := true];
    if i > 0 {
      assert after[1..] == checked[1..][i - 1 := true];
      CheckOne(checked[1..], i - 1);
    } else {
      assert after[1..] == checked[1..];
    }
  }

  // ---- bytes determine values ----

  lemma {:induction false} BytesDetermine(x: nat, y: nat, n: nat)
    requires x < Pow2(8 * n) && y < Pow2(8 * n)
    requires forall b :: 0 <= b < n ==> ByteAt(x, b) == ByteAt(y, b)
    ensures x == y
  {
    if n > 0 {
      Pow2Sum(8, 8 * (n - 1));
      assert Pow2(8) == 256;
      forall b | 0 <= b < n - 1
        ensures ByteAt(x / 256, b) == ByteAt(y / 256, b)
      {
        assert ByteAt(x, b + 1) == ByteAt(y, b + 1);
      }
      BytesDetermine(x / 256, y / 256, n - 1);
      assert ByteAt(x, 0) == ByteAt(y, 0);
    }
  }

  lemma Pow2Monotone(m: nat, n: nat)
    requires m <= n
    ensures Pow2(m) <= Pow2(n)
  {
    if m < n {
      Pow2Monotone(m, n - 1);
    }
  }

  /** Values of the switch's width that agree on every byte are equal. */
  lemma AgreeIsEqual(x: nat, y: nat, checked: seq<bool>, width: nat)
    requires x < Pow2(width) && y < Pow2(width) && width <= 8 * |checked|
    requires Agree(x, y, checked) && (forall b :: 0 <= b < |checked| ==> checked[b])
    ensures x == y
  {
    Pow2Monotone(width, 8 * |checked|);
    BytesDetermine(x, y, |checked|);
  }

  // ---- splitting ----

  /** The cases whose byte at `i` is below `pivot`, or those whose byte is not. */
  function Part(cases: seq<Case>, i: nat, pivot: nat, below: bool): seq<Case> {
    if cases == [] then []
    else if (ByteAt(cases[0].value, i) < pivot) == below then [cases[0]] + Part(cases[1..], i, pivot, below)
    else Part(cases[1..], i, pivot, below)
  }

  lemma {:induction false} PartOf(cases: seq<Case>, i: nat, pivot: nat, below: bool, c: Case)
    ensures c in Part(cases, i, pivot, below) <==> c in cases && (ByteAt(c.value, i) < pivot) == below
  {
    if cases != [] {
      PartOf(cases[1..], i, pivot, below, c);
    }
  }

  lemma {:induction false} PartSizes(cases: seq<Case>, i: nat, pivot: nat)
    ensures |Part(cases, i, pivot, true)| + |Part(cases, i, pivot, false)| == |cases|
  {
    if cases != [] {
      PartSizes(cases[1..], i, pivot);
    }
  }

  lemma {:induction false} PartDistinct(cases: seq<Case>, i: nat, pivot: nat, below: bool, width: nat)
    requires Distinct(cases, width)
    ensures Distinct(Part(cases, i, pivot, below), width)
  {
    if cases != [] {
      PartDistinct(cases[1..], i, pivot, below, width);
      var rest := Part(cases[1..], i, pivot, below);
      forall j | 0 <= j < |rest|
        ensures rest[j].value != cases[0].value
      {
        PartOf(cases[1..], i, pivot, below, rest[j]);
        var k :| 0 <= k < |cases[1..]| && cases[1..][k] == rest[j];
        assert cases[k + 1] == rest[j];
      }
    }
  }

  /** How many cases go to block `t`. */
  function Into(cases: seq<Case>, t: nat): nat {
    if cases == [] then 0 else (if cases[0].dest == t then 1 else 0) + Into(cases[1..], t)
  }

  lemma IntoCons(c: Case, rest: seq<Case>, t: nat)
    ensures Into([c] + rest, t) == (if c.dest == t then 1 else 0) + Into(rest, t)
  {
    assert ([c] + rest)[1..] == rest;
  }

  lemma {:induction false} PartInto(cases: seq<Case>, i: nat, pivot: nat, t: nat)
    ensures Into(cases, t) == Into(Part(cases, i, pivot, true), t) + Into(Part(cases, i, pivot, false), t)
  {
    hide ByteAt;
    if cases != [] {
      PartInto(cases[1..], i, pivot, t);
      IntoCons(cases[0], Part(cases[1..], i, pivot, ByteAt(cases[0].value, i) < pivot), t);
    }
  }

  lemma TargetCons(c: Case, rest: seq<Case>, default: nat, v: nat)
    ensures SwitchTarget([c] + rest, default, v) == if c.value == v then c.dest else SwitchTarget(rest, default, v)
  {
    assert ([c] + rest)[1..] == rest;
  }

  /** Only the part that a value's byte selects can hold the case of that value. */
  lemma {:induction false} PartTarget(cases: seq<Case>, default: nat, i: nat, pivot: nat, v: nat, below: bool)
    requires below == (ByteAt(v, i) < pivot)
    ensures SwitchTarget(cases, default, v) == SwitchTarget(Part(cases, i, pivot, below), default, v)
  {
    hide ByteAt;
    if cases != [] {
      PartTarget(cases[1..], default, i, pivot, v, below);
      TargetCons(cases[0], Part(cases[1..], i, pivot, below), default, v);
    }
  }

  lemma {:induction false} NoMatch(cases: seq<Case>, default: nat, i: nat, byte: nat, v: nat)
    requires forall c :: c in cases ==> ByteAt(c.value, i) == byte
    requires ByteAt(v, i) != byte
    ensures SwitchTarget(cases, default, v) == default
  {
    if cases != [] {
      assert cases[0] in cases;
      NoMatch(cases[1..], default, i, byte, v);
    }
  }

  lemma {:induction false} TargetAmong(cases: seq<Case>, default: nat, v: nat)
    ensures SwitchTarget(cases, default, v) == default
            || exists i :: 0 <= i < |cases| && SwitchTarget(cases, default, v) == cases[i].dest
  {
    if cases != [] && cases[0].value != v {
      TargetAmong(cases[1..], default, v);
      if i :| 0 <= i < |cases[1..]| && SwitchTarget(cases[1..], default, v) == cases[1..][i].dest {
        assert cases[i + 1].dest == SwitchTarget(cases, default, v);
      }
    }
  }

  // ---- byte sets ----

  ghost function BytesOf(cases: seq<Case>, i: nat): set<nat> {
    set c | c in cases :: ByteAt(c.value, i) as nat
  }

  lemma {:induction false} FewBytes(s: set<nat>, n: nat)
    requires forall b :: b in s ==> b < n
    ensures |s| <= n
  {
    if n > 0 {
      FewBytes(s - {n - 1}, n - 1);
    } else {
      assert forall b :: b !in s;
      assert s == {};
    }
  }

  /** The set of byte values at each position. */
  method ByteSets(cases: seq<Case>, n: nat) returns (sets: seq<set<nat>>)
    ensures |sets| == n && forall b :: 0 <= b < n ==> sets[b] == BytesOf(cases, b)
  {
    sets := seq(n, _ => {});
    for k := 0 to |cases|
      invariant |sets| == n && forall b :: 0 <= b < n ==> sets[b] == BytesOf(cases[..k], b)
    {
      assert cases[..k + 1] == cases[..k] + [cases[k]];
      ghost var before := sets;
      for i := 0 to n
        invariant |sets| == n
        invariant forall b :: 0 <= b < i ==> sets[b] == before[b] + {ByteAt(cases[k].value, b) as nat}
        invariant forall b :: i <= b < n ==> sets[b] == before[b]
      {
        sets := sets[i := sets[i] + {ByteAt(cases[k].value, i)}];
      }
    }
    assert cases[..|cases|] == cases;
  }

  /** The first unchecked position with the fewest byte values. */
  method Smallest(sets: seq<set<nat>>, checked: seq<bool>) returns (index: nat, size: nat)
    requires |sets| == |checked| && Unchecked(checked) > 0
    requires forall b, x :: 0 <= b < |sets| && x in sets[b] ==> x < 256
    ensures index < |checked| && !checked[index] && size == |sets[index]|
    ensures forall b :: 0 <= b < |checked| && !checked[b] ==> size < |sets[b]| || (size == |sets[b]| && index <= b)
  {
    index, size := 0, 257;
    for i := 0 to |sets|
      invariant size == 257 || (index < i && !checked[index] && size == |sets[index]|)
      invariant size == 257 ==> forall b :: 0 <= b < i ==> checked[b]
      invariant forall b :: 0 <= b < i && !checked[b] ==> size < |sets[b]| || (size == |sets[b]| && index <= b)
    {
      if !checked[i] {
        FewBytes(sets[i], 256);
        if |sets[i]| < size {
          index, size := i, |sets[i]|;
        }
      }
    }
    if size == 257 {
      NoneUnchecked(checked);
    }
  }

  lemma {:induction false} NoneUnchecked(checked: seq<bool>)
    requires forall b :: 0 <= b < |checked| ==> checked[b]
    ensures Unchecked(checked) == 0
  {
    if checked != [] {
      NoneUnchecked(checked[1..]);
    }
  }

  lemma {:induction false} SomeUnchecked(checked: seq<bool>, i: nat)
    requires i < |checked| && !checked[i]
    ensures Unchecked(checked) > 0
  {
    if i > 0 {
      SomeUnchecked(checked[1..], i - 1);
    }
  }

  method AllChecked(checked: seq<bool>) returns (all: bool)
    ensures all <==> forall b :: 0 <= b < |checked| ==> checked[b]
  {
    for b := 0 to |checked|
      invariant forall k :: 0 <= k < b ==> checked[k]
    {
      if !checked[b] { return false; }
    }
    return true;
  }

  /** The bytes of a set in increasing order. */
  method Sorted(s: set<nat>) returns (v: seq<nat>)
    requires forall x :: x in s ==> x < 256
    ensures forall x :: x in s <==> x in v
    ensures forall i, j :: 0 <= i < j < |v| ==> v[i] < v[j]
  {
    v := [];
    for b := 0 to 256
      invariant forall x :: x in v <==> x in s && x < b
      invariant forall i :: 0 <= i < |v| ==> v[i] < b
      invariant forall i, j :: 0 <= i < j < |v| ==> v[i] < v[j]
    {
      if b in s {
        v := v + [b];
      }
    }
  }

  method Split(cases: seq<Case>, i: nat, pivot: nat) returns (lhs: seq<Case>, rhs: seq<Case>)
    ensures lhs == Part(cases, i, pivot, true) && rhs == Part(cases, i, pivot, false)
  {
    lhs, rhs := [], [];
    for k := 0 to |cases|
      invariant lhs + Part(cases[k..], i, pivot, true) == Part(cases, i, pivot, true)
      invariant rhs + Part(cases[k..], i, pivot, false) == Part(cases, i, pivot, false)
    {
      assert cases[k..][1..] == cases[k + 1..];
      if ByteAt(cases[k].value, i) < pivot {
        lhs := lhs + [cases[k]];
      } else {
        rhs := rhs + [cases[k]];
      }
    }
  }

  /** The median of a set of at least two bytes leaves cases on both sides. */
  lemma BothSides(cases: seq<Case>, i: nat, v: seq<nat>)
    requires |v| >= 2 && (forall a, b :: 0 <= a < b < |v| ==> v[a] < v[b])
    requires forall x :: x in v <==> x in BytesOf(cases, i)
    ensures 0 < |Part(cases, i, v[|v| / 2], true)| < |cases|
    ensures 0 < |Part(cases, i, v[|v| / 2], false)| < |cases|
  {
    var pivot := v[|v| / 2];
    assert v[0] in v && pivot in v;
    var c :| c in cases && ByteAt(c.value, i) == v[0];
    var d :| d in cases && ByteAt(d.value, i) == pivot;
    PartOf(cases, i, pivot, true, c);
    PartOf(cases, i, pivot, false, d);
    PartSizes(cases, i, pivot);
  }
}
