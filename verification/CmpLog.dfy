/**
 * The comparison log: for each key a header and a ring of operand slots, which the integer hooks
 * and the routine hook share as raw memory. The ghost history lists the calls recorded at each
 * key since the kind of comparison there last changed.
 */
module CmpLog {
  import opened Words

  const CMP_MAP_W: nat := 0x1_0000
  const CMP_MAP_H: nat := 32
  const CMP_MAP_RTN_H: nat := CMP_MAP_H / 4

  /** Bytes of log memory for each key: 32 slots of four words. */
  const ROW: nat := 1024

  type u16 = x: int | 0 <= x < 0x1_0000
  type u128 = x: int | 0 <= x < 0x1_0000_0000_0000_0000_0000_0000_0000_0000

  datatype Kind = Unused | Ins | Rtn

  /** The bit fields of a header: 24, 5, 2 and 4 bits wide. */
  datatype Header = Header(hits: nat, shape: nat, kind: Kind, attribute: nat)

  /** A call to record. The size of integers is in bytes minus one. */
  datatype Record =
    | Integers(v0: u128, v1: u128, size: u8, attr: u8)
    | Memory(p0: seq<u8>, p1: seq<u8>)

  ghost predicate Wellformed(r: Record) {
    r.Memory? ==> 1 <= |r.p0| == |r.p1| <= 32
  }

  function KindOf(r: Record): Kind { if r.Integers? then Ins else Rtn }

  function Ring(kind: Kind): nat { if kind.Ins? then CMP_MAP_H else CMP_MAP_RTN_H }

  function Width(kind: Kind): nat { if kind.Ins? then 32 else 64 }

  function SizeOf(r: Record): int { if r.Integers? then r.size else |r.p0| - 1 }

  // ---- slots ----

  function Low(x: u128): u64 { x % TWO_TO_THE_64 }

  function High(x: u128): u64 { x / TWO_TO_THE_64 }

  /** The bytes of a slot. */
  function Slot(row: seq<u8>, kind: Kind, s: nat): (bytes: seq<u8>)
    requires |row| == ROW && s < Ring(kind)
    ensures |bytes| == Width(kind)
  {
    if kind.Ins? then row[32 * s..32 * s + 32] else row[64 * s..64 * s + 64]
  }

  function Put(row: seq<u8>, kind: Kind, s: nat, bytes: seq<u8>): (r: seq<u8>)
    requires |row| == ROW && s < Ring(kind) && |bytes| == Width(kind)
    ensures |r| == ROW && Slot(r, kind, s) == bytes
  {
    if kind.Ins? then row[..32 * s] + bytes + row[32 * s + 32..] else row[..64 * s] + bytes + row[64 * s + 64..]
  }

  lemma PutElsewhere(row: seq<u8>, kind: Kind, s: nat, bytes: seq<u8>, t: nat)
    requires |row| == ROW && s < Ring(kind) && |bytes| == Width(kind)
    requires t < Ring(kind) && t != s
    ensures Slot(Put(row, kind, s, bytes), kind, t) == Slot(row, kind, t)
  {
    var w := Width(kind);
    var after := Put(row, kind, s, bytes);
    PutOutside(row, kind, s, bytes);
    assert Slot(after, kind, t) == after[w * t..w * t + w];
    assert Slot(row, kind, t) == row[w * t..w * t + w];
    assert after[w * t..w * t + w] == row[w * t..w * t + w] by {
      assert forall i :: w * t <= i < w * t + w ==> after[i] == row[i];
    }
  }

  lemma PutOutside(row: seq<u8>, kind: Kind, s: nat, bytes: seq<u8>)
    requires |row| == ROW && s < Ring(kind) && |bytes| == Width(kind)
    ensures forall i :: 0 <= i < ROW && !(Width(kind) * s <= i < Width(kind) * s + Width(kind)) ==>
              Put(row, kind, s, bytes)[i] == row[i]
  {
  }

  /** The operands are in the slot; high halves only if they are wider than a word. */
  ghost predicate Holds(slot: seq<u8>, r: Record)
    requires |slot| == Width(KindOf(r))
  {
    match r
    case Integers(v0, v1, size, _) =>
      && slot[..8] == Bytes(Low(v0)) && slot[8..16] == Bytes(Low(v1))
      && (size > 7 ==> slot[16..24] == Bytes(High(v0)) && slot[24..32] == Bytes(High(v1)))
    case Memory(p0, p1) =>
      |p0| <= 32 && |p1| <= 32 && slot[..|p0|] == p0 && slot[32..32 + |p1|] == p1
  }

  // ---- what a key's header and memory say ----

  function MaxSize(recs: seq<Record>): int
    requires recs != []
  {
    var last := SizeOf(recs[|recs| - 1]);
    if |recs| == 1 then last
    else
      var before := MaxSize(recs[..|recs| - 1]);
      if before < last then last else before
  }

  ghost predicate FitShape(recs: seq<Record>) {
    forall m :: 0 <= m < |recs| ==> SizeOf(recs[m]) < 32
  }

  ghost predicate SameKind(kind: Kind, recs: seq<Record>) {
    forall m :: 0 <= m < |recs| ==> Wellformed(recs[m]) && KindOf(recs[m]) == kind
  }

  ghost predicate HeaderOk(h: Header, recs: seq<Record>) {
    && SameKind(h.kind, recs)
    && (h.kind.Unused? <==> recs == [])
    && h.hits == |recs| % 0x100_0000 && h.shape < 32 && h.attribute < 16
    && (recs != [] ==> (h.shape == MaxSize(recs) <==> FitShape(recs)))
    && (recs != [] && h.kind.Ins? ==> h.attribute == recs[|recs| - 1].attr % 16)
  }

  /** Each of the latest calls is in the slot of its number. */
  ghost predicate RowOk(kind: Kind, row: seq<u8>, recs: seq<Record>) {
    && |row| == ROW && SameKind(kind, recs)
    && forall m :: 0 <= m < |recs| && |recs| <= m + Ring(kind) ==> Holds(Slot(row, kind, m % Ring(kind)), recs[m])
  }

  /** The latest call whose number is j modulo the size of the ring. */
  function LatestAt(n: nat, kind: Kind, j: nat): (m: nat)
    requires j < Ring(kind) && j < n
    ensures m < n <= m + Ring(kind) && m % Ring(kind) == j
  {
    if kind.Ins? then
      Multiples32((n - 1 - j) / 32, j);
      32 * ((n - 1 - j) / 32) + j
    else
      Multiples8((n - 1 - j) / 8, j);
      8 * ((n - 1 - j) / 8) + j
  }

  lemma SlotsDiffer(kind: Kind, m: nat, n: nat)
    requires m < n < m + Ring(kind)
    ensures m % Ring(kind) != n % Ring(kind)
  {
    var k := n - m;
    if kind.Ins? {
      assert (m + k) % 32 != m % 32;
    } else {
      assert (m + k) % 8 != m % 8;
    }
  }

  /** Slot j holds the latest recorded call whose number is j modulo the size of the ring. */
  lemma SlotHoldsLatest(kind: Kind, row: seq<u8>, recs: seq<Record>, j: nat)
    requires RowOk(kind, row, recs) && j < Ring(kind) && j < |recs|
    ensures var m := LatestAt(|recs|, kind, j);
            && Holds(Slot(row, kind, j), recs[m])
            && forall later :: m < later < |recs| ==> later % Ring(kind) != j
  {
    hide Holds, Slot;
    var m := LatestAt(|recs|, kind, j);
    forall later | m < later < |recs|
      ensures later % Ring(kind) != j
    {
      SlotsDiffer(kind, m, later);
    }
  }

  /** The shape is the largest size recorded, and was recorded. */
  lemma {:induction false} MaxSizeIsMax(recs: seq<Record>, m: nat) returns (k: nat)
    requires m < |recs|
    ensures k < |recs| && SizeOf(recs[m]) <= MaxSize(recs) == SizeOf(recs[k])
  {
    k := |recs| - 1;
    if |recs| > 1 && SizeOf(recs[k]) <= MaxSize(recs[..k]) {
      var before := recs[..k];
      k := MaxSizeIsMax(before, if m < k then m else 0);
    } else if |recs| > 1 && m < k {
      var _ := MaxSizeIsMax(recs[..k], m);
    }
  }

  // ---- one more record ----

  /** A call of another kind starts anew. */
  ghost function After(recs: seq<Record>, r: Record): seq<Record> {
    if recs != [] && KindOf(recs[0]) == KindOf(r) then recs + [r] else [r]
  }

  ghost function Recorded(history: seq<seq<Record>>, k: nat, r: Record): seq<seq<Record>>
    requires k < |history|
  {
    history[k := After(history[k], r)]
  }

  /** The calls kept for a key after a sequence of calls there. */
  ghost function AllAfter(calls: seq<Record>): seq<Record> {
    if calls == [] then [] else After(AllAfter(calls[..|calls| - 1]), calls[|calls| - 1])
  }

  /** The last calls, all of the kind of the last, up to one of another kind. */
  ghost predicate SinceChange(kept: seq<Record>, calls: seq<Record>) {
    var from := |calls| - |kept|;
    && from >= 0 && kept == calls[from..]
    && (forall m :: 0 <= m < |kept| ==> KindOf(kept[m]) == KindOf(calls[|calls| - 1]))
    && (from > 0 ==> kept != [] && KindOf(calls[from - 1]) != KindOf(calls[|calls| - 1]))
  }

  lemma SameKindCalls(kept: seq<Record>, calls: seq<Record>, r: Record)
    requires SinceChange(kept, calls) && kept != [] && KindOf(kept[0]) == KindOf(r)
    ensures SinceChange(kept + [r], calls + [r])
  {
    hide KindOf;
    var from := |calls| - |kept|;
    assert kept + [r] == (calls + [r])[from..];
  }

  lemma OtherKindCalls(kept: seq<Record>, calls: seq<Record>, r: Record)
    requires SinceChange(kept, calls) && (kept == [] || KindOf(kept[0]) != KindOf(r))
    ensures SinceChange([r], calls + [r])
  {
    hide KindOf;
    assert [r] == (calls + [r])[|calls|..];
    assert kept != [] ==> kept[0] == calls[|calls| - |kept|] && kept[|kept| - 1] == calls[|calls| - 1];
  }

  /** What is kept is exactly the calls since the kind last changed. */
  lemma {:induction false} KeptSinceKindChanged(calls: seq<Record>)
    ensures SinceChange(AllAfter(calls), calls)
  {
    if calls != [] {
      var n := |calls| - 1;
      KeptSinceKindChanged(calls[..n]);
      var kept := AllAfter(calls[..n]);
      assert calls == calls[..n] + [calls[n]];
      if kept != [] && KindOf(kept[0]) == KindOf(calls[n]) {
        SameKindCalls(kept, calls[..n], calls[n]);
      } else {
        OtherKindCalls(kept, calls[..n], calls[n]);
      }
      hide SinceChange, KindOf;
    }
  }

  lemma RowNext(kind: Kind, row: seq<u8>, recs: seq<Record>, bytes: seq<u8>, r: Record)
    requires RowOk(kind, row, recs) && Wellformed(r) && KindOf(r) == kind
    requires |bytes| == Width(kind) && Holds(bytes, r)
    ensures RowOk(kind, Put(row, kind, |recs| % Ring(kind), bytes), recs + [r])
  {
    hide Holds, Slot, Put;
    var s := |recs| % Ring(kind);
    var after := Put(row, kind, s, bytes);
    forall m | 0 <= m < |recs| && |recs| + 1 <= m + Ring(kind)
      ensures Holds(Slot(after, kind, m % Ring(kind)), recs[m])
    {
      SlotsDiffer(kind, m, |recs|);
      PutElsewhere(row, kind, s, bytes, m % Ring(kind));
    }
  }

  lemma FirstRow(kind: Kind, row: seq<u8>, bytes: seq<u8>, r: Record)
    requires |row| == ROW && Wellformed(r) && KindOf(r) == kind
    requires |bytes| == Width(kind) && Holds(bytes, r)
    ensures RowOk(kind, Put(row, kind, 0, bytes), [r])
  {
    hide Holds, Slot, Put;
    assert forall m :: 0 <= m < |[r]| ==> m % Ring(kind) == 0 && [r][m] == r;
  }

  lemma HeaderNext(h: Header, recs: seq<Record>, r: Record, shape: nat, attribute: nat)
    requires HeaderOk(h, recs) && Wellformed(r) && h.kind == KindOf(r) && recs != []
    requires shape == (if h.shape < SizeOf(r) then SizeOf(r) % 32 else h.shape)
    requires attribute == if r.Integers? then r.attr % 16 else h.attribute
    ensures HeaderOk(Header((h.hits + 1) % 0x100_0000, shape, h.kind, attribute), recs + [r])
  {
    hide FitShape, MaxSize;
    MaxSizeNext(recs, r);
    FitShapeNext(recs, r);
    if !FitShape(recs) {
      UnfitMaximum(recs);
    }
  }

  lemma MaxSizeNext(recs: seq<Record>, r: Record)
    requires recs != []
    ensures MaxSize(recs + [r]) == if MaxSize(recs) < SizeOf(r) then SizeOf(r) else MaxSize(recs)
  {
    assert (recs + [r])[..|recs|] == recs;
  }

  lemma FitShapeNext(recs: seq<Record>, r: Record)
    ensures FitShape(recs + [r]) <==> FitShape(recs) && SizeOf(r) < 32
  {
    var next := recs + [r];
    assert next[|recs|] == r;
    assert forall m :: 0 <= m < |recs| ==> recs[m] == next[m];
  }

  lemma UnfitMaximum(recs: seq<Record>)
    requires !FitShape(recs)
    ensures recs != [] && MaxSize(recs) >= 32
  {
    var m: nat :| m < |recs| && SizeOf(recs[m]) >= 32;
    var _ := MaxSizeIsMax(recs, m);
  }

  // ---- the hooks ----

  /** k = (k >> 4) ^ (k << 8), cut to the number of keys */
  function Key(address: u64): (k: nat)
    ensures k < CMP_MAP_W
  {
    Xor64(address / 16, address * 256 % TWO_TO_THE_64) % CMP_MAP_W
  }

  /** Bit j of the key is set where either bit j + 4 or bit j - 8 of the address is, and not both. */
  lemma KeyBits(address: u64, j: nat)
    requires j < 16
    ensures Bit(Key(address), j) == (Bit(address, j + 4) + if j >= 8 then Bit(address, j - 8) else 0) % 2
  {
    hide Bit, Xor, Key;
    var down, up := address / 16, address * 256 % TWO_TO_THE_64;
    var mixed := Xor64(down, up);
    KeyIs(address, mixed);
    BitOfXor(down, up, j);
    BitOfDown(address, j);
    BitOfUp(address, j);
    BitOfUp64(address, up, j);
  }

  lemma KeyIs(address: u64, mixed: u64)
    requires mixed == Xor64(address / 16, address * 256 % TWO_TO_THE_64)
    ensures forall j :: 0 <= j < 16 ==> Bit(Key(address), j) == Bit(mixed, j)
  {
    hide Xor64, Bit;
    var q := mixed / CMP_MAP_W;
    assert mixed == CMP_MAP_W * q + Key(address);
    PowersBits();
    forall j | 0 <= j < 16
      ensures Bit(Key(address), j) == Bit(mixed, j)
    {
      BitBelow(q, Key(address), 16, j);
    }
  }

  lemma PowersBits()
    ensures Pow2(16) == CMP_MAP_W && Pow2(64) == TWO_TO_THE_64
  {
    Pow2Of64();
    Powers();
    hide Pow2;
    Pow2Sum(15, 1);
  }

  lemma BitOfUp64(address: u64, up: u64, j: nat)
    requires up == address * 256 % TWO_TO_THE_64 && j < 16
    ensures Bit(up, j) == Bit(256 * address, j)
  {
    hide Bit;
    var q := address * 256 / TWO_TO_THE_64;
    assert 256 * address == TWO_TO_THE_64 * q + up;
    PowersBits();
    BitBelow(q, up, 64, j);
  }

  lemma BitOfDown(x: nat, j: nat)
    ensures Bit(x / 16, j) == Bit(x, j + 4)
  {
    assert x / 2 / 2 / 2 / 2 == x / 16;
    assert Bit(x, j + 4) == Bit(x / 2, j + 3) == Bit(x / 2 / 2, j + 2) == Bit(x / 2 / 2 / 2, j + 1);
  }

  lemma {:induction false} BitOfUp(x: nat, j: nat)
    ensures Bit(256 * x, j) == if j >= 8 then Bit(x, j - 8) else 0
  {
    BitOfDouble(128 * x, j);
    BitOfDouble(64 * x, j - 1);
    BitOfDouble(32 * x, j - 2);
    BitOfDouble(16 * x, j - 3);
    BitOfDouble(8 * x, j - 4);
    BitOfDouble(4 * x, j - 5);
    BitOfDouble(2 * x, j - 6);
    BitOfDouble(x, j - 7);
  }

  lemma BitOfDouble(x: nat, j: int)
    ensures j == 0 ==> Bit(2 * x, 0) == 0
    ensures j > 0 ==> Bit(2 * x, j) == Bit(x, j - 1)
  {
  }

  class CmpMap {
    const headers: array<Header>
    const log: array<seq<u8>>
    ghost var history: seq<seq<Record>>

    /** Every header and every slot says what the calls at its key were. */
    ghost predicate Valid()
      reads this, headers, log
    {
      && headers.Length == log.Length == |history| == CMP_MAP_W
      && forall k :: 0 <= k < CMP_MAP_W ==>
        HeaderOk(headers[k], history[k]) && RowOk(headers[k].kind, log[k], history[k])
    }

    constructor ()
      ensures Valid() && fresh(headers) && fresh(log)
      ensures history == seq(CMP_MAP_W, _ => [])
    {
      headers := new Header[CMP_MAP_W](_ => Header(0, 0, Unused, 0));
      log := new seq<u8>[CMP_MAP_W](_ => seq(ROW, _ => 0));
      history := seq(CMP_MAP_W, _ => []);
    }

    /** What all integer hooks do with the header, which yields the number of this call. */
    method CountIntegers(k: nat, size: u8, attr: u8) returns (hits: nat)
      requires k < headers.Length && headers[k].shape < 32 && headers[k].hits < 0x100_0000
      modifies headers
      ensures forall i :: 0 <= i < headers.Length && i != k ==> headers[i] == old(headers[i])
      ensures hits == if old(headers[k].kind.Ins?) then old(headers[k].hits) else 0
      ensures headers[k] == if old(headers[k].kind.Ins?)
                            then Header((old(headers[k].hits) + 1) % 0x100_0000,
                                        if old(headers[k].shape) < size then size % 32
                                        else old(headers[k].shape), Ins, attr % 16)
                            else Header(1, size % 32, Ins, attr % 16)
    {
      var h := headers[k];
      if !h.kind.Ins? {
        h := h.(kind := Ins, hits := 1, shape := size % 32);
        hits := 0;
      } else {
        hits := h.hits;
        h := h.(hits := (h.hits + 1) % 0x100_0000);
        if h.shape < size {
          h := h.(shape := size % 32);
        }
      }
      headers[k] := h.(attribute := attr % 16);
    }

    /** The part of the integer hooks after the test for equal operands. */
    method LogIntegers(k: nat, v0: u128, v1: u128, size: u8, attr: u8)
      requires Valid() && k < CMP_MAP_W
      modifies this`history, headers, log
      ensures Valid()
      ensures history == Recorded(old(history), k, Integers(v0, v1, size, attr))
    {
      ghost var r := Integers(v0, v1, size, attr);
      hide HeaderOk, RowOk, Holds, Slot, Put, Bytes;
      InRange(headers[k], log[k], history[k]);
      var hits := CountIntegers(k, size, attr);
      var s := hits % CMP_MAP_H;
      var cell := Operands(Slot(log[k], Ins, s), v0, v1, size);
      OperandsHold(Slot(log[k], Ins, s), r);
      HeaderAfter(old(headers[k]), history[k], r, headers[k]);
      RowAfter(old(headers[k]), log[k], history[k], hits, cell, r);
      log[k] := Put(log[k], Ins, s, cell);
      history := Recorded(history, k, r);
    }

    method Hook1(address: u64, arg1: u8, arg2: u8, attr: u8)
      requires Valid()
      modifies this`history, headers, log
      ensures Valid()
      ensures history == if arg1 == arg2 then old(history)
                         else Recorded(old(history), Key(address), Integers(arg1, arg2, 0, attr))
    {
      if arg1 == arg2 {
        return;
      }
      LogIntegers(Key(address), arg1, arg2, 0, attr);
    }

    method Hook2(address: u64, arg1: u16, arg2: u16, attr: u8)
      requires Valid()
      modifies this`history, headers, log
      ensures Valid()
      ensures history == if arg1 == arg2 then old(history)
                         else Recorded(old(history), Key(address), Integers(arg1, arg2, 1, attr))
    {
      if arg1 == arg2 {
        return;
      }
      LogIntegers(Key(address), arg1, arg2, 1, attr);
    }

    method Hook4(address: u64, arg1: u32, arg2: u32, attr: u8)
      requires Valid()
      modifies this`history, headers, log
      ensures Valid()
      ensures history == if arg1 == arg2 then old(history)
                         else Recorded(old(history), Key(address), Integers(arg1, arg2, 3, attr))
    {
      if arg1 == arg2 {
        return;
      }
      LogIntegers(Key(address), arg1, arg2, 3, attr);
    }

    method Hook8(address: u64, arg1: u64, arg2: u64, attr: u8)
      requires Valid()
      modifies this`history, headers, log
      ensures Valid()
      ensures history == if arg1 == arg2 then old(history)
                         else Recorded(old(history), Key(address), Integers(arg1, arg2, 7, attr))
    {
      if arg1 == arg2 {
        return;
      }
      LogIntegers(Key(address), arg1, arg2, 7, attr);
    }

    method HookN(address: u64, arg1: u128, arg2: u128, attr: u8, size: u8)
      requires Valid()
      modifies this`history, headers, log
      ensures Valid()
      ensures history == if arg1 == arg2 then old(history)
                         else Recorded(old(history), Key(address), Integers(arg1, arg2, size, attr))
    {
      if arg1 == arg2 {
        return;
      }
      LogIntegers(Key(address), arg1, arg2, size, attr);
    }

    /** The widest hook records equal operands too. */
    method Hook16(address: u64, arg1: u128, arg2: u128, attr: u8)
      requires Valid()
      modifies this`history, headers, log
      ensures Valid()
      ensures history == Recorded(old(history), Key(address), Integers(arg1, arg2, 15, attr))
    {
      LogIntegers(Key(address), arg1, arg2, 15, attr);
    }

    /**
     * Every case is compared with the value, at keys of their own; `cases` starts with their number
     * and their width.
     */
    method TraceSwitch(address: u64, val: u64, cases: array<u64>)
      requires Valid() && cases.Length > 0 && cases[0] + 2 <= cases.Length
      modifies this`history, headers, log
      ensures Valid()
      ensures history == old(SwitchRecorded(history, address, val, cases[2..cases[0] + 2]))
      ensures forall i :: 0 <= i < cases[0] ==> Integers(val, cases[i + 2], 7, 1) in history[Key(Add(address, i))]
    {
      hide SwitchRecorded, Valid, Key, Add;
      ghost var was, all := history, cases[2..cases[0] + 2];
      KindsOf();
      LogCases(address, val, cases);
      AllCasesRecorded(was, address, val, all);
      assert forall i :: 0 <= i < cases[0] ==> all[i] == cases[i + 2];
    }

    lemma KindsOf()
      requires Valid()
      ensures |history| == CMP_MAP_W && OfOneKind(history)
    {
    }

    method LogCases(address: u64, val: u64, cases: array<u64>)
      requires Valid() && cases.Length > 0 && cases[0] + 2 <= cases.Length
      modifies this`history, headers, log
      ensures Valid()
      ensures history == old(SwitchRecorded(history, address, val, cases[2..cases[0] + 2]))
    {
      ghost var was := history;
      var i: u64 := 0;
      while i < cases[0]
        invariant i <= cases[0] && Valid()
        invariant history == SwitchRecorded(was, address, val, cases[2..i + 2])
      {
        LogIntegers(Key(Add(address, i)), val, cases[i + 2], 7, 1);
        assert cases[2..i + 3] == cases[2..i + 2] + [cases[i + 2]];
        i := i + 1;
      }
    }

    /**
     * The calls of functions on two regions of memory; `l1` and `l2` are how many bytes of them, of 32,
     * can be read, and not positive when none can.
     */
    method RoutineHook(address: u64, ptr1: seq<u8>, ptr2: seq<u8>, l1: int, l2: int)
      requires Valid() && l1 <= 32 && l2 <= 32 && l1 <= |ptr1| && l2 <= |ptr2|
      modifies this`history, headers, log
      ensures Valid()
      ensures history == if l1 <= 0 || l2 <= 0 then old(history)
                         else (var len := if l1 <= l2 then l1 else l2;
                               Recorded(old(history), Key(address), Memory(ptr1[..len], ptr2[..len])))
    {
      hide HeaderOk, RowOk, Key;
      if l1 <= 0 || l2 <= 0 {
        return;
      }
      var len := if l1 <= l2 then l1 else l2;
      LogRegions(Key(address), ptr1[..len], ptr2[..len]);
    }

    method LogRegions(k: nat, p0: seq<u8>, p1: seq<u8>)
      requires Valid() && k < CMP_MAP_W && 1 <= |p0| == |p1| <= 32
      modifies this`history, headers, log
      ensures Valid()
      ensures history == Recorded(old(history), k, Memory(p0, p1))
    {
      ghost var r := Memory(p0, p1);
      hide HeaderOk, RowOk, Holds, Slot, Put, Regions;
      InRange(headers[k], log[k], history[k]);
      var hits := CountRoutine(k, |p0|);
      var s := hits % CMP_MAP_RTN_H;
      var cell := Regions(Slot(log[k], Rtn, s), p0, p1);
      RegionsHold(Slot(log[k], Rtn, s), r);
      HeaderAfter(old(headers[k]), history[k], r, headers[k]);
      RowAfter(old(headers[k]), log[k], history[k], hits, cell, r);
      log[k] := Put(log[k], Rtn, s, cell);
      history := Recorded(history, k, r);
    }

    method CountRoutine(k: nat, len: nat) returns (hits: nat)
      requires k < headers.Length && headers[k].shape < 32 && headers[k].hits < 0x100_0000 && 1 <= len <= 32
      modifies headers
      ensures forall i :: 0 <= i < headers.Length && i != k ==> headers[i] == old(headers[i])
      ensures hits == if old(headers[k].kind.Rtn?) then old(headers[k].hits) else 0
      ensures headers[k] == if old(headers[k].kind.Rtn?)
                            then Header((old(headers[k].hits) + 1) % 0x100_0000,
                                        if old(headers[k].shape) < len - 1 then len - 1 else old(headers[k].shape),
                                        Rtn, old(headers[k].attribute))
                            else Header(1, len - 1, Rtn, old(headers[k].attribute))
    {
      var h := headers[k];
      if !h.kind.Rtn? {
        h := h.(kind := Rtn, hits := 1, shape := len - 1);
        hits := 0;
      } else {
        hits := h.hits;
        h := h.(hits := (h.hits + 1) % 0x100_0000);
        if h.shape < len {
          h := h.(shape := len - 1);
        }
      }
      headers[k] := h;
    }
  }

  function Operands(slot: seq<u8>, v0: u128, v1: u128, size: u8): (bytes: seq<u8>)
    requires |slot| == 32
    ensures |bytes| == 32
  {
    Bytes(Low(v0)) + Bytes(Low(v1)) + if size > 7 then Bytes(High(v0)) + Bytes(High(v1)) else slot[16..]
  }

  lemma OperandsHold(slot: seq<u8>, r: Record)
    requires |slot| == 32 && r.Integers?
    ensures Holds(Operands(slot, r.v0, r.v1, r.size), r)
  {
    hide Low, High;
  }

  /** Two memcpy calls into a slot. */
  function Regions(slot: seq<u8>, p0: seq<u8>, p1: seq<u8>): (bytes: seq<u8>)
    requires |slot| == 64 && |p0| <= 32 && |p1| <= 32
    ensures |bytes| == 64
  {
    p0 + slot[|p0|..32] + p1 + slot[32 + |p1|..]
  }

  lemma RegionsHold(slot: seq<u8>, r: Record)
    requires |slot| == 64 && r.Memory? && Wellformed(r)
    ensures Holds(Regions(slot, r.p0, r.p1), r)
  {
  }

  ghost function SwitchRecorded(history: seq<seq<Record>>, address: u64, val: u64,
                                cases: seq<u64>): (after: seq<seq<Record>>)
    requires |history| == CMP_MAP_W && |cases| <= TWO_TO_THE_64
    ensures |after| == CMP_MAP_W
  {
    if cases == [] then history
    else
      var n := |cases| - 1;
      Recorded(SwitchRecorded(history, address, val, cases[..n]), Key(Add(address, n)), Integers(val, cases[n], 7, 1))
  }

  /** The calls at each key are of one kind. */
  ghost predicate OfOneKind(history: seq<seq<Record>>) {
    forall k, m :: 0 <= k < |history| && 0 <= m < |history[k]| ==> KindOf(history[k][m]) == KindOf(history[k][0])
  }

  lemma KeptAfter(history: seq<seq<Record>>, k: nat, r: Record, k': nat, r': Record)
    requires OfOneKind(history) && k < |history| && k' < |history|
    ensures OfOneKind(Recorded(history, k, r)) && r in Recorded(history, k, r)[k]
    ensures r' in history[k'] && KindOf(r') == KindOf(r) ==> r' in Recorded(history, k, r)[k']
  {
    hide KindOf;
    assert After(history[k], r)[|After(history[k], r)| - 1] == r;
  }

  /** Each case is among the calls at the key of its own, the value being the first operand. */
  lemma {:induction false} AllCasesRecorded(history: seq<seq<Record>>, address: u64, val: u64, cases: seq<u64>)
    requires |history| == CMP_MAP_W && |cases| <= TWO_TO_THE_64 && OfOneKind(history)
    ensures var after := SwitchRecorded(history, address, val, cases);
            && OfOneKind(after)
            && forall i :: 0 <= i < |cases| ==> Integers(val, cases[i], 7, 1) in after[Key(Add(address, i))]
  {
    hide Key, Add, After, OfOneKind;
    if cases != [] {
      var n := |cases| - 1;
      AllCasesRecorded(history, address, val, cases[..n]);
      var before := SwitchRecorded(history, address, val, cases[..n]);
      var r := Integers(val, cases[n], 7, 1);
      KeptAfter(before, Key(Add(address, n)), r, Key(Add(address, n)), r);
      forall i | 0 <= i <= n
        ensures Integers(val, cases[i], 7, 1) in Recorded(before, Key(Add(address, n)), r)[Key(Add(address, i))]
      {
        KeptAfter(before, Key(Add(address, n)), r, Key(Add(address, i)), Integers(val, cases[i], 7, 1));
        assert i < n ==> cases[..n][i] == cases[i];
      }
    }
  }

  lemma InRange(h: Header, row: seq<u8>, recs: seq<Record>)
    requires HeaderOk(h, recs) && RowOk(h.kind, row, recs)
    ensures h.shape < 32 && h.hits < 0x100_0000 && |row| == ROW
  {
  }

  lemma HeaderAfter(h: Header, recs: seq<Record>, r: Record, g: Header)
    requires HeaderOk(h, recs) && Wellformed(r)
    requires g.kind == KindOf(r) && g.attribute == (if r.Integers? then r.attr % 16 else h.attribute)
    requires g.hits == if h.kind == g.kind then (h.hits + 1) % 0x100_0000 else 1
    requires g.shape == if h.kind == g.kind && h.shape >= SizeOf(r) then h.shape else SizeOf(r) % 32
    ensures HeaderOk(g, After(recs, r))
  {
    if h.kind == g.kind {
      HeaderNext(h, recs, r, g.shape, g.attribute);
    }
  }

  lemma RowAfter(h: Header, row: seq<u8>, recs: seq<Record>, hits: nat, bytes: seq<u8>, r: Record)
    requires HeaderOk(h, recs) && RowOk(h.kind, row, recs) && Wellformed(r)
    requires hits == (if h.kind == KindOf(r) then h.hits else 0)
    requires |bytes| == Width(KindOf(r)) && Holds(bytes, r)
    ensures RowOk(KindOf(r), Put(row, KindOf(r), hits % Ring(KindOf(r)), bytes), After(recs, r))
  {
    hide Holds, Slot, Put;
    if h.kind == KindOf(r) {
      assert KindOf(recs[0]) == h.kind;
      SameSlot(KindOf(r), hits, |recs|);
      RowNext(h.kind, row, recs, bytes, r);
    } else {
      assert recs == [] || KindOf(recs[0]) == h.kind;
      FirstRow(KindOf(r), row, bytes, r);
    }
  }

  /** The wrap of the hit counter does not disturb the ring. */
  lemma SameSlot(kind: Kind, hits: nat, n: nat)
    requires hits == n % 0x100_0000
    ensures hits % Ring(kind) == n % Ring(kind)
  {
    var turns := n / 0x100_0000;
    assert n == 32 * (0x8_0000 * turns) + hits;
    if kind.Ins? {
      Multiples32(0x8_0000 * turns, hits);
    } else {
      assert n == 8 * (0x20_0000 * turns) + hits;
      Multiples8(0x20_0000 * turns, hits);
    }
  }

  lemma Multiples32(a: nat, b: nat)
    ensures (32 * a + b) % 32 == b % 32
  {
  }

  lemma Multiples8(a: nat, b: nat)
    ensures (8 * a + b) % 8 == b % 8
  {
  }
}
