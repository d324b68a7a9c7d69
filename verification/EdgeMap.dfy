/**
 * Edge counters that never fall back to zero: the C form, in both of its spellings, and the two
 * assembly payloads. Each keeps the map that the sequence of block ids alone determines.
 */
module EdgeMap {
  import opened Words

  const MAP_SIZE: nat := 0x1_0000

  type u16 = x: int | 0 <= x < 0x1_0000

  // ---- what the map says ----

  /** Where the edge from the block before the last one to the last one is counted. */
  function EdgeOf(ids: seq<u32>): nat
    requires ids != []
  {
    Xor(PrevAfter(ids[..|ids| - 1]), ids[|ids| - 1])
  }

  function PrevAfter(ids: seq<u32>): nat {
    if ids == [] then 0 else ids[|ids| - 1] / 2
  }

  /** How many consecutive pairs of ids meet in cell i. */
  function Hits(ids: seq<u32>, i: int): nat {
    if ids == [] then 0
    else Hits(ids[..|ids| - 1], i) + if EdgeOf(ids) == i then 1 else 0
  }

  /** The counter after `n` hits: zero for none, else 1 to 255 around and around. */
  function Cell(n: nat): u8 {
    if n == 0 then 0 else (n - 1) % 255 + 1
  }

  /** The map after a sequence of ids, from a map that need not be clear. */
  ghost predicate Counts(map': seq<u8>, start: seq<u8>, ids: seq<u32>) {
    && |map'| == |start| == MAP_SIZE
    && forall i :: 0 <= i < MAP_SIZE ==> map'[i] == Cell(start[i] + Hits(ids, i))
  }

  ghost predicate InMap(ids: seq<u32>) {
    forall k :: 0 <= k < |ids| ==> ids[k] < MAP_SIZE
  }

  /** A counter that was hit is never zero again. */
  lemma CellsNeverZero(map': seq<u8>, start: seq<u8>, ids: seq<u32>, i: nat)
    requires Counts(map', start, ids) && i < MAP_SIZE
    ensures map'[i] == 0 <==> start[i] == 0 && Hits(ids, i) == 0
  {
  }

  ghost predicate Meets(ids: seq<u32>, k: nat, i: int)
    requires k < |ids|
  {
    EdgeOf(ids[..k + 1]) == i
  }

  ghost function Pairs(ids: seq<u32>, i: int): set<nat> {
    set k: nat | k < |ids| && Meets(ids, k, i)
  }

  lemma PairsOfLonger(shorter: seq<u32>, x: u32, i: int)
    ensures |Pairs(shorter + [x], i)| == |Pairs(shorter, i)| + if EdgeOf(shorter + [x]) == i then 1 else 0
  {
    var ids := shorter + [x];
    forall k: nat | k < |shorter|
      ensures Meets(shorter, k, i) == Meets(ids, k, i)
    {
      assert shorter[..k + 1] == ids[..k + 1];
    }
    assert ids[..|shorter| + 1] == ids;
    assert Meets(ids, |shorter|, i) == (EdgeOf(ids) == i);
    hide Meets, EdgeOf;
    assert Pairs(ids, i) == Pairs(shorter, i) + if EdgeOf(ids) == i then {|shorter|} else {};
  }

  /** Cell i counts the positions whose block and the one before meet in i. */
  lemma {:induction false} HitsArePairs(ids: seq<u32>, i: int)
    ensures Hits(ids, i) == |Pairs(ids, i)|
  {
    hide EdgeOf, Meets;
    if ids != [] {
      var shorter := ids[..|ids| - 1];
      HitsArePairs(shorter, i);
      PairsOfLonger(shorter, ids[|ids| - 1], i);
      assert shorter + [ids[|ids| - 1]] == ids;
    }
  }

  lemma EdgeInMap(ids: seq<u32>)
    requires ids != [] && InMap(ids)
    ensures EdgeOf(ids) < MAP_SIZE
  {
    assert Pow2(8) == 256;
    Pow2Sum(8, 8);
    XorBelow(PrevAfter(ids[..|ids| - 1]), ids[|ids| - 1], 16);
  }

  /** A second exclusive or brings the first operand back. */
  lemma {:induction false} XorBack(x: nat, y: nat)
    ensures Xor(y, Xor(x, y)) == x
    decreases x + y
  {
    if x != 0 || y != 0 {
      XorBack(x / 2, y / 2);
      XorHalves(x, y);
      XorHalves(y, Xor(x, y));
      hide Xor;
      BitBack(x, y, Xor(x / 2, y / 2));
    }
  }

  lemma XorHalves(x: nat, y: nat)
    ensures Xor(x, y) == 2 * Xor(x / 2, y / 2) + (x + y) % 2
  {
  }

  lemma BitBack(x: nat, y: nat, h: nat)
    ensures (2 * h + (x + y) % 2) / 2 == h
    ensures (y + 2 * h + (x + y) % 2) % 2 == x % 2
  {
  }

  /** One more id moves one cell by one hit. */
  lemma CountsNext(old': seq<u8>, new': seq<u8>, start: seq<u8>, ids: seq<u32>, x: u32)
    requires Counts(old', start, ids) && InMap(ids + [x])
    requires |new'| == MAP_SIZE
    requires EdgeOf(ids + [x]) < MAP_SIZE
    requires forall i :: 0 <= i < MAP_SIZE ==>
               new'[i] == if i == EdgeOf(ids + [x]) then old'[i] % 255 + 1 else old'[i]
    ensures Counts(new', start, ids + [x])
  {
    hide Cell, Hits, EdgeOf;
    forall i | 0 <= i < MAP_SIZE
      ensures new'[i] == Cell(start[i] + Hits(ids + [x], i))
    {
      HitsNext(ids, x, i);
      CellNext(start[i] + Hits(ids, i));
    }
  }

  lemma HitsNext(ids: seq<u32>, x: u32, i: int)
    ensures Hits(ids + [x], i) == Hits(ids, i) + if EdgeOf(ids + [x]) == i then 1 else 0
  {
    hide EdgeOf;
    assert (ids + [x])[..|ids|] == ids;
  }

  lemma CellNext(n: nat)
    ensures Cell(n + 1) == Cell(n) % 255 + 1
  {
  }

  // ---- the C form ----

  /** c = __builtin_add_overflow(*p, 1, p); *p += c */
  method AddOverflow(area: array<u8>, p: nat)
    requires p < area.Length
    modifies area
    ensures area[p] == old(area[p]) % 255 + 1
    ensures forall i :: 0 <= i < area.Length && i != p ==> area[i] == old(area[i])
  {
    var carry: nat := if area[p] as int + 1 > 255 then 1 else 0;
    area[p] := (area[p] as int + 1) % 256;
    area[p] := (area[p] as int + carry) % 256;
  }

  /** *p += 1 + ((u8)(1 + *p) == 0) */
  method AddUnlessZero(area: array<u8>, p: nat)
    requires p < area.Length
    modifies area
    ensures area[p] == old(area[p]) % 255 + 1
    ensures forall i :: 0 <= i < area.Length && i != p ==> area[i] == old(area[i])
  {
    area[p] := (area[p] as int + 1 + if (1 + area[p] as int) % 256 == 0 then 1 else 0) % 256;
  }

  class Trace {
    const area: array<u8>
    var prev: u16
    ghost const start: seq<u8>
    ghost var ids: seq<u32>

    ghost predicate Valid()
      reads this, area
    {
      && Counts(area[..], start, ids) && InMap(ids)
      && prev == PrevAfter(ids)
    }

    constructor (area: array<u8>)
      requires area.Length == MAP_SIZE
      ensures Valid() && this.area == area && start == area[..] && ids == []
    {
      this.area := area;
      prev := 0;
      start := area[..];
      ids := [];
      new;
      assert forall i :: 0 <= i < MAP_SIZE ==> area[i] == Cell(area[i] as nat);
    }

    /** __afl_trace where the compiler has an overflow builtin. */
    method Hit(x: u32)
      requires Valid() && x < MAP_SIZE
      modifies this, area
      ensures Valid() && ids == old(ids) + [x]
    {
      var p := At(x);
      AddOverflow(area, p);
      prev := x / 2 % 0x1_0000;
      Counted(old(area[..]), x);
    }

    /** __afl_trace elsewhere. */
    method HitPortably(x: u32)
      requires Valid() && x < MAP_SIZE
      modifies this, area
      ensures Valid() && ids == old(ids) + [x]
    {
      var p := At(x);
      AddUnlessZero(area, p);
      prev := x / 2 % 0x1_0000;
      Counted(old(area[..]), x);
    }

    method At(x: u32) returns (p: nat)
      requires Valid() && x < MAP_SIZE
      ensures p < MAP_SIZE && p == EdgeOf(ids + [x])
    {
      ghost var next := ids + [x];
      assert next[..|ids|] == ids;
      EdgeInMap(next);
      p := Xor(prev, x);
    }

    ghost method Counted(before: seq<u8>, x: u32)
      requires Counts(before, start, ids) && InMap(ids + [x])
      requires area.Length == MAP_SIZE && prev == x / 2
      requires EdgeOf(ids + [x]) < MAP_SIZE
      requires forall i :: 0 <= i < MAP_SIZE ==>
                 area[i] == if i == EdgeOf(ids + [x]) then before[i] % 255 + 1 else before[i]
      modifies this`ids
      ensures Valid() && ids == old(ids) + [x]
    {
      CountsNext(before, area[..], start, ids, x);
      ids := ids + [x];
    }
  }

  // ---- the assembly payloads ----

  /** addb $1 and adcb $0 on a byte of memory. */
  method AddWithCarry(area: array<u8>, p: nat)
    requires p < area.Length
    modifies area
    ensures area[p] == old(area[p]) % 255 + 1
    ensures forall i :: 0 <= i < area.Length && i != p ==> area[i] == old(area[i])
  {
    var sum: int := area[p] as int + 1;
    var carry := sum / 256;
    area[p] := sum % 256;
    area[p] := (area[p] as int + carry) % 256;
  }

  /** The 32-bit payload keeps the id in ecx and spends edi on the cell. */
  class Payload32 {
    const area: array<u8>
    var prevLoc: u32
    ghost const start: seq<u8>
    ghost var ids: seq<u32>

    ghost predicate Valid()
      reads this, area
    {
      Counts(area[..], start, ids) && InMap(ids) && prevLoc == PrevAfter(ids)
    }

    constructor (area: array<u8>)
      requires area.Length == MAP_SIZE
      ensures Valid() && this.area == area && start == area[..] && ids == []
    {
      this.area := area;
      prevLoc := 0;
      start := area[..];
      ids := [];
      new;
      assert forall i :: 0 <= i < MAP_SIZE ==> area[i] == Cell(area[i] as nat);
    }

    method Store(id: u32)
      requires Valid() && id < MAP_SIZE
      modifies this, area
      ensures Valid() && ids == old(ids) + [id]
    {
      ghost var next := ids + [id];
      assert next[..|ids|] == ids;
      EdgeInMap(next);
      var ecx: u32 := id;
      var edi := prevLoc;
      edi := Xor32(edi, ecx);
      ecx := ecx / 2;
      prevLoc := ecx;
      AddWithCarry(area, edi);
      CountsNext(old(area[..]), area[..], start, ids, id);
      ids := next;
    }
  }

  /** The 64-bit payload recovers the id from the cell by a second exclusive or. */
  class Payload64 {
    const area: array<u8>
    var prevLoc: u64
    ghost const start: seq<u8>
    ghost var ids: seq<u32>

    ghost predicate Valid()
      reads this, area
    {
      Counts(area[..], start, ids) && InMap(ids) && prevLoc == PrevAfter(ids)
    }

    constructor (area: array<u8>)
      requires area.Length == MAP_SIZE
      ensures Valid() && this.area == area && start == area[..] && ids == []
    {
      this.area := area;
      prevLoc := 0;
      start := area[..];
      ids := [];
      new;
      assert forall i :: 0 <= i < MAP_SIZE ==> area[i] == Cell(area[i] as nat);
    }

    method Store(id: u32)
      requires Valid() && id < MAP_SIZE
      modifies this, area
      ensures Valid() && ids == old(ids) + [id]
    {
      ghost var next := ids + [id];
      assert next[..|ids|] == ids;
      EdgeInMap(next);
      XorSwaps(id, prevLoc);
      XorBack(id, prevLoc);
      var rcx: u64 := id;
      rcx := Xor64(rcx, prevLoc);
      prevLoc := Xor64(prevLoc, rcx);
      prevLoc := prevLoc / 2;
      AddWithCarry(area, rcx);
      CountsNext(old(area[..]), area[..], start, ids, id);
      ids := next;
    }
  }

  /** All forms leave the same map and the same previous location after the same blocks. */
  lemma FormsAgree(c: Trace, a: Payload32, b: Payload64)
    requires c.Valid() && a.Valid() && b.Valid()
    requires c.ids == a.ids == b.ids && c.start == a.start == b.start
    ensures c.area[..] == a.area[..] == b.area[..]
    ensures c.prev == a.prevLoc == b.prevLoc
  {
  }
}
