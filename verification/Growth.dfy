/** Rounding up to powers of two, and buffers that grow by it. */
module Growth {
  import opened Words

  // ---- the bit expression ----

  function Or(x: nat, y: nat): nat
    decreases x + y
  {
    if x == 0 && y == 0 then 0 else 2 * Or(x / 2, y / 2) + if x % 2 == 1 || y % 2 == 1 then 1 else 0
  }

  /** x >> n */
  function Shr(x: nat, n: nat): (r: nat)
    ensures r <= x
  {
    if n == 0 then x else Shr(x / 2, n - 1)
  }

  lemma {:induction false} OrBelow(x: nat, y: nat, n: nat)
    requires x < Pow2(n) && y < Pow2(n)
    ensures Or(x, y) < Pow2(n)
  {
    if n > 0 {
      OrBelow(x / 2, y / 2, n - 1);
    }
  }

  /** x |= x >> n */
  function SmearBy(x: u64, n: nat): u64 {
    Pow2Of64();
    OrBelow(x, Shr(x, n), 64);
    Or(x, Shr(x, n))
  }

  /** next_pow2 */
  function NextPow2(in': u64): u64 {
    var out := Sub(in', 1);
    var out := SmearBy(out, 1);
    var out := SmearBy(out, 2);
    var out := SmearBy(out, 4);
    var out := SmearBy(out, 8);
    var out := SmearBy(out, 16);
    Add(out, 1)
  }

  // ---- what it computes ----

  /** One of the lowest n bits is set. */
  predicate AnyLow(x: nat, n: nat) {
    n > 0 && (x % 2 == 1 || AnyLow(x / 2, n - 1))
  }

  /** Bit j is set if one of the bits j to j + n - 1 of x is. */
  function Smeared(x: nat, n: nat): nat {
    if x == 0 then 0 else 2 * Smeared(x / 2, n) + if AnyLow(x, n) then 1 else 0
  }

  /** All bits set from the highest one of x down. */
  function Ones(x: nat): nat {
    if x == 0 then 0 else 2 * Ones(x / 2) + 1
  }

  /** Below the highest bit of x there are no 32 zero bits in a row. */
  predicate NoGap(x: nat) {
    x == 0 || (AnyLow(x, 32) && NoGap(x / 2))
  }

  lemma {:induction false} SmearedByOne(x: nat)
    ensures Smeared(x, 1) == x
  {
    if x > 0 {
      SmearedByOne(x / 2);
      assert AnyLow(x, 1) <==> x % 2 == 1;
    }
  }

  lemma {:induction false} ShrHalf(x: nat, n: nat)
    ensures Shr(x / 2, n) == Shr(x, n) / 2
  {
    if n > 0 {
      ShrHalf(x / 2, n - 1);
    }
  }

  lemma {:induction false} SmearedShifted(x: nat, n: nat, m: nat)
    ensures Shr(Smeared(x, n), m) == Smeared(Shr(x, m), n)
  {
    if m > 0 {
      SmearedShifted(x / 2, n, m - 1);
      assert Smeared(x, n) / 2 == Smeared(x / 2, n);
    }
  }

  lemma {:induction false} AnyLowSplits(x: nat, n: nat, m: nat)
    ensures AnyLow(x, n + m) <==> AnyLow(x, n) || AnyLow(Shr(x, n), m)
  {
    if n > 0 {
      AnyLowSplits(x / 2, n - 1, m);
    }
  }

  lemma {:induction false} NoneInZero(n: nat)
    ensures !AnyLow(0, n)
  {
    if n > 0 {
      NoneInZero(n - 1);
    }
  }

  lemma {:induction false} SmearedTwice(x: nat, n: nat)
    ensures Or(Smeared(x, n), Smeared(Shr(x, n), n)) == Smeared(x, n + n)
  {
    if x == 0 {
      assert Shr(0, n) == 0;
    } else {
      SmearedTwice(x / 2, n);
      ShrHalf(x, n);
      AnyLowSplits(x, n, n);
      NoneInZero(n);
      OrHalves(Smeared(x, n), Smeared(Shr(x, n), n));
      BitOfSmeared(x, n);
      BitOfSmeared(Shr(x, n), n);
    }
  }

  lemma OrHalves(x: nat, y: nat)
    ensures Or(x, y) == 2 * Or(x / 2, y / 2) + if x % 2 == 1 || y % 2 == 1 then 1 else 0
  {
  }

  lemma BitOfSmeared(x: nat, n: nat)
    ensures Smeared(x, n) / 2 == Smeared(x / 2, n)
    ensures Smeared(x, n) % 2 == if AnyLow(x, n) then 1 else 0
  {
    NoneInZero(n);
  }

  /** A step of the expression doubles the reach. */
  lemma SmearStep(x: nat, n: nat)
    requires Smeared(x, n) < TWO_TO_THE_64
    ensures SmearBy(Smeared(x, n), n) == Smeared(x, n + n)
  {
    SmearedShifted(x, n, n);
    SmearedTwice(x, n);
  }

  /** All five steps reach 32 bits. */
  lemma NextPow2Is(in': u64)
    ensures var x := Sub(in', 1); Smeared(x, 32) < TWO_TO_THE_64 && NextPow2(in') == Add(Smeared(x, 32), 1)
  {
    var x := Sub(in', 1);
    SmearedByOne(x);
    SmearStep(x, 1);
    SmearStep(x, 2);
    SmearStep(x, 4);
    SmearStep(x, 8);
    SmearStep(x, 16);
    hide Smeared, SmearBy;
  }

  lemma {:induction false} SmearedIsOnes(x: nat, n: nat)
    requires n == 32
    ensures Smeared(x, n) <= Ones(x)
    ensures Smeared(x, n) == Ones(x) <==> NoGap(x)
  {
    if x > 0 {
      SmearedIsOnes(x / 2, n);
    }
  }

  // ---- the least power of two ----

  /** The least power of two that is not below v. */
  function RoundUp(v: nat): nat
    requires v > 0
  {
    Ones(v - 1) + 1
  }

  lemma {:induction false} OnesBelowPow2(x: nat) returns (k: nat)
    ensures Ones(x) + 1 == Pow2(k) && x < Pow2(k) && (x > 0 ==> k > 0 && Pow2(k - 1) <= x) && (x == 0 ==> k == 0)
  {
    k := 0;
    if x > 0 {
      k := OnesBelowPow2(x / 2);
      k := k + 1;
    }
  }

  lemma {:induction false} Pow2Grows(j: nat, k: nat)
    requires j < k
    ensures 1 <= Pow2(j) && 2 * Pow2(j) <= Pow2(k)
  {
    if j > 0 {
      Pow2Grows(j - 1, k - 1);
    } else if k > 1 {
      Pow2Grows(0, k - 1);
    }
  }

  lemma RoundUpIsLeast(v: nat, k: nat)
    requires v > 0
    ensures v <= Pow2(k) <==> RoundUp(v) <= Pow2(k)
    ensures RoundUp(v) == Pow2(k) <==> v <= Pow2(k) && (k > 0 ==> Pow2(k - 1) < v)
  {
    var j := OnesBelowPow2(v - 1);
    if j < k {
      Pow2Grows(j, k);
    } else if k < j {
      Pow2Grows(k, j);
    }
  }

  /** next_p2, which doubles until it is enough */
  method NextP2(val: u64) returns (ret: u64)
    requires val <= 0x8000_0000_0000_0000
    ensures ret == if val == 0 then 1 else RoundUp(val)
  {
    ghost var k := 0;
    ret := 1;
    while val > ret
      invariant ret == Pow2(k) && (k > 0 ==> Pow2(k - 1) < val)
      decreases val - ret
    {
      Pow2Grows(0, k + 1);
      ret := ret * 2;
      k := k + 1;
    }
    if val > 0 {
      RoundUpIsLeast(val, k);
    }
  }

  lemma {:induction false} SomeLow(x: nat, n: nat)
    requires 0 < x < Pow2(n)
    ensures AnyLow(x, n)
  {
    if x % 2 == 0 {
      SomeLow(x / 2, n - 1);
    }
  }

  lemma {:induction false} SmallHasNoGap(x: nat)
    requires x < TWO_TO_THE_32
    ensures NoGap(x)
  {
    if x > 0 {
      Pow2Of64();
      SomeLow(x, 32);
      SmallHasNoGap(x / 2);
    }
  }

  lemma {:induction false} SmearedCovers(x: nat, n: nat)
    requires n > 0
    ensures x <= Smeared(x, n)
  {
    if x > 0 {
      SmearedCovers(x / 2, n);
    }
  }

  lemma OnesBelow(x: nat)
    requires x < 0x8000_0000_0000_0000
    ensures Ones(x) < 0x8000_0000_0000_0000
  {
    var k := OnesBelowPow2(x);
    Pow2Of64();
    assert Pow2(63) == 0x8000_0000_0000_0000;
    if k > 63 {
      Pow2Grows(62, k - 1);
    } else if k < 63 {
      Pow2Grows(k, 63);
    }
  }

  /** The bit expression equals the loop exactly when its five shifts close every gap, as they do up to 2^32. */
  lemma NextPow2IsRoundUpIff(in': u64)
    requires 0 < in' <= 0x8000_0000_0000_0000
    ensures NextPow2(in') == RoundUp(in') <==> NoGap(in' - 1)
    ensures in' <= TWO_TO_THE_32 ==> NextPow2(in') == RoundUp(in')
  {
    hide Smeared, NoGap, Ones, NextPow2, AnyLow, SmearBy, Pow2;
    var x := in' - 1;
    NextPow2Is(in');
    SmearedIsOnes(x, 32);
    OnesBelow(x);
    if in' <= TWO_TO_THE_32 {
      SmallHasNoGap(x);
    }
  }

  /** Above 2^63 it wraps to zero, as documented for overflow, exactly under the same condition. */
  lemma NextPow2WrapsIff(in': u64)
    requires in' > 0x8000_0000_0000_0000
    ensures NextPow2(in') == 0 <==> NoGap(in' - 1)
  {
    hide Smeared, Ones, NoGap, NextPow2, AnyLow;
    var x := in' - 1;
    assert Sub(in', 1) == x;
    NextPow2Is(in');
    SmearedIsOnes(x, 32);
    OnesOfHighest(x);
    WrapsAtTop(Smeared(x, 32));
  }

  lemma WrapsAtTop(x: u64)
    ensures Add(x, 1) == 0 <==> x == TWO_TO_THE_64 - 1
  {
  }

  lemma OnesOfHighest(x: u64)
    requires x >= 0x8000_0000_0000_0000
    ensures Ones(x) == TWO_TO_THE_64 - 1
  {
    hide Ones;
    Pow2Of64();
    assert Pow2(64) == 2 * Pow2(63);
    var k := OnesBelowPow2(x);
    if k < 64 {
      PowAtMost(k, 63);
    } else if k > 64 {
      PowAtMost(64, k - 1);
    }
  }

  /** Beyond 2^32 it need not. */
  lemma GapFails()
    ensures !NoGap(TWO_TO_THE_32) && NextPow2(TWO_TO_THE_32 + 1) != RoundUp(TWO_TO_THE_32 + 1)
  {
    hide NextPow2, RoundUp, AnyLow, Pow2;
    NextPow2IsRoundUpIff(TWO_TO_THE_32 + 1);
    NoneLow(32);
    Pow2Of64();
  }

  lemma {:induction false} NoneLow(n: nat)
    ensures !AnyLow(Pow2(n), n)
  {
    if n > 0 {
      NoneLow(n - 1);
    }
  }

  /** The result is never too small, except that it wraps to zero. */
  lemma NextPow2Covers(in': u64)
    ensures NextPow2(in') == 0 || NextPow2(in') >= in'
  {
    hide Smeared, NextPow2, AnyLow;
    NextPow2Is(in');
    SmearedCovers(Sub(in', 1), 32);
  }

  // ---- buffers ----

  const AFL_ALLOC_SIZE_OFFSET: nat := 8
  const INITIAL_GROWTH_SIZE: nat := 64

  /** A block of memory with its header; the pointer that users hold is to `buf`. */
  class AllocBuf {
    var completeSize: u64
    var freed: bool
    var buf: array<u8>

    ghost predicate Valid()
      reads this
    {
      !freed && completeSize == AFL_ALLOC_SIZE_OFFSET + buf.Length
    }

    constructor ()
      ensures Valid() && fresh(buf) && completeSize == AFL_ALLOC_SIZE_OFFSET
    {
      completeSize, freed := AFL_ALLOC_SIZE_OFFSET, false;
      buf := new u8[0];
    }

    /** The block made longer: the content of another or of itself, and then anything. */
    method Extend(completeSize: u64, content: seq<u8>, rest: u8)
      requires AFL_ALLOC_SIZE_OFFSET + |content| <= completeSize
      modifies this
      ensures this.completeSize == completeSize && freed == old(freed) && fresh(buf)
      ensures AFL_ALLOC_SIZE_OFFSET + buf.Length == completeSize && buf[..|content|] == content
    {
      this.completeSize := completeSize;
      buf := new u8[completeSize - AFL_ALLOC_SIZE_OFFSET](
        i requires 0 <= i => if i < |content| then content[i] else rest);
      assert buf[..|content|] == content;
    }
  }

  /** What a growing buffer is given; the sum before has wrapped. */
  function NextSize(needed: u64): (next: u64)
    ensures next >= INITIAL_GROWTH_SIZE && next >= needed
  {
    NextPow2Covers(needed);
    if needed < INITIAL_GROWTH_SIZE then INITIAL_GROWTH_SIZE
    else if NextPow2(needed) == 0 then needed
    else NextPow2(needed)
  }

  /** The variable that holds the pointer. */
  class Pointer {
    var to: AllocBuf?

    ghost predicate Valid()
      reads this, to
    {
      to != null ==> to.Valid()
    }

    function CompleteSize(): u64
      reads this, to
    {
      if to == null then 0 else to.completeSize
    }

    ghost function Content(): seq<u8>
      reads this, to, if to == null then {} else {to.buf}
    {
      if to == null then [] else to.buf[..]
    }

    constructor ()
      ensures to == null
    {
      to := null;
    }

    /**
     * afl_realloc; `granted` tells whether the system gives memory when asked, `inPlace` whether it does so
     * without moving the block, and `rest` what the new memory holds.
     * A block that is moved away from or refused more is freed, and a refusal clears the pointer.
     */
    method AflRealloc(sizeNeeded: u64, granted: bool, inPlace: bool, rest: u8) returns (r: AllocBuf?)
      requires Valid()
      modifies this, to
      ensures Valid() && r == to
      ensures var needed := Add(sizeNeeded, AFL_ALLOC_SIZE_OFFSET);
              if old(CompleteSize()) >= needed then
                to == old(to) && (to != null ==> to.completeSize == old(to.completeSize) && to.buf == old(to.buf))
              else if granted then
                to != null && fresh(to.buf) && to.completeSize == NextSize(needed) &&
                if old(to) != null && inPlace then to == old(to) else fresh(to)
              else to == null
      ensures to != null ==> old(Content()) <= to.buf[..]
      ensures old(to) != null && to != old(to) ==> old(to).freed
    {
      hide NextSize;
      var current := CompleteSize();
      var needed := Add(sizeNeeded, AFL_ALLOC_SIZE_OFFSET);
      if current >= needed {
        return to;
      }
      var was := to;
      if !granted {
        to := null;
      } else {
        if was == null || !inPlace {
          to := new AllocBuf();
        }
        to.Extend(NextSize(needed), if was == null then [] else was.buf[..], rest);
      }
      if was != null && was != to {
        was.freed := true;
      }
      r := to;
    }
  }

  // ---- how much room there is ----

  /** Sizes, with the header, for which a buffer that grows gets no more than it needs. */
  ghost predicate Tight(needed: u64) {
    LargePower(needed) || (needed > 0x8000_0000_0000_0000 && NoGap(needed - 1))
  }

  /** A power of two that is not below the initial size. */
  ghost predicate LargePower(v: nat) {
    exists k: nat :: k >= 6 && v == Pow2(k)
  }

  lemma {:induction false} UnsmearedIsOnes(x: nat, n: nat)
    requires n >= 2
    ensures Smeared(x, n) == x <==> x == Ones(x)
  {
    if x > 0 {
      hide AnyLow;
      UnsmearedIsOnes(x / 2, n);
      LowestTwo(x, n);
      Twice(Smeared(x / 2, n), x, AnyLow(x, n));
      Twice(Ones(x / 2), x, true);
      assert x / 2 > 0 && x / 2 == Ones(x / 2) ==> x / 2 % 2 == 1 by {
        Twice(Ones(x / 2 / 2), x / 2, true);
      }
    }
  }

  lemma LowestTwo(x: nat, n: nat)
    requires n >= 2
    ensures x % 2 == 1 || x / 2 % 2 == 1 ==> AnyLow(x, n)
  {
    assert AnyLow(x, n) <==> x % 2 == 1 || AnyLow(x / 2, n - 1);
  }

  lemma Twice(half: nat, x: nat, odd: bool)
    ensures 2 * half + (if odd then 1 else 0) == x <==> half == x / 2 && (odd <==> x % 2 == 1)
  {
  }

  lemma PowerIsOnes(needed: nat)
    requires needed >= INITIAL_GROWTH_SIZE
    ensures Ones(needed - 1) == needed - 1 <==> LargePower(needed)
  {
    hide Ones;
    assert Pow2(6) == 64;
    var j := OnesBelowPow2(needed - 1);
    if j < 6 {
      Pow2Grows(j, 6);
    }
    forall k: nat | k >= 6 && needed == Pow2(k)
      ensures RoundUp(needed) == needed
    {
      Pow2Grows(k - 1, k);
      RoundUpIsLeast(needed, k);
    }
  }

  /** Adding one to a smeared number. */
  lemma NextPow2Keeps(needed: u64)
    requires needed > 0
    ensures NextPow2(needed) == needed <==> Smeared(needed - 1, 32) == needed - 1
  {
    hide Smeared, NextPow2;
    NextPow2Is(needed);
    assert Sub(needed, 1) == needed - 1;
    AddOne(Smeared(needed - 1, 32));
  }

  lemma AddOne(x: u64)
    ensures Add(x, 1) == if x == TWO_TO_THE_64 - 1 then 0 else x + 1
  {
  }

  lemma WrapsOnlyAtTop(needed: u64)
    requires 0 < needed <= 0x8000_0000_0000_0000
    ensures NextPow2(needed) != 0
  {
    hide Smeared, NextPow2, Ones, NoGap;
    NextPow2Is(needed);
    assert Sub(needed, 1) == needed - 1;
    AddOne(Smeared(needed - 1, 32));
    SmearedIsOnes(needed - 1, 32);
    OnesBelow(needed - 1);
  }

  lemma NotSmall(v: nat)
    requires LargePower(v)
    ensures v >= INITIAL_GROWTH_SIZE
  {
    var k: nat :| k >= 6 && v == Pow2(k);
    SixthPower();
    PowAtMost(6, k);
  }

  lemma NextSizeIsTightIff(needed: u64)
    ensures NextSize(needed) == needed <==> Tight(needed)
  {
    hide NextPow2, Ones, NoGap, Smeared, LargePower;
    if needed < INITIAL_GROWTH_SIZE {
      if LargePower(needed) {
        NotSmall(needed);
      }
    } else {
      PowerIsOnes(needed);
      NextPow2Keeps(needed);
      UnsmearedIsOnes(needed - 1, 32);
      if needed > 0x8000_0000_0000_0000 {
        NextPow2WrapsIff(needed);
        OnesOfHighest(needed - 1);
      } else {
        WrapsOnlyAtTop(needed);
      }
    }
  }

  lemma SixthPower()
    ensures Pow2(6) == INITIAL_GROWTH_SIZE
  {
  }

  /**
   * There is room for what was asked exactly when adding the header did not wrap. There is room for more, as is
   * documented, exactly when in addition a block that stays is larger than needed, or the size of one that
   * grows is not tight.
   */
  method GetRoom(p: Pointer, sizeNeeded: u64, inPlace: bool, rest: u8) returns (r: AllocBuf?)
    requires p.Valid()
    modifies p, p.to
    ensures p.Valid() && r == p.to
    ensures r != null && r.buf.Length >= sizeNeeded <==> sizeNeeded + AFL_ALLOC_SIZE_OFFSET < TWO_TO_THE_64
    ensures var needed := sizeNeeded + AFL_ALLOC_SIZE_OFFSET;
            r != null && r.buf.Length > sizeNeeded <==>
              needed < TWO_TO_THE_64 &&
              if old(p.CompleteSize()) >= needed then old(p.CompleteSize()) > needed else !Tight(needed)
  {
    hide NextSize, Tight;
    r := p.AflRealloc(sizeNeeded, true, inPlace, rest);
    if sizeNeeded + AFL_ALLOC_SIZE_OFFSET < TWO_TO_THE_64 {
      NextSizeIsTightIff(sizeNeeded + AFL_ALLOC_SIZE_OFFSET);
    }
  }

  /** No room for more than was asked. */
  method NoSpareByte(rest: u8) returns (r: AllocBuf?)
    ensures r != null && r.Valid() && r.buf.Length == 56
  {
    hide NextSize;
    SixthPower();
    NextSizeIsTightIff(64);
    var p := new Pointer();
    r := p.AflRealloc(56, true, false, rest);
  }

  /** A size of 0 is a request like others: it gives a block, and frees none. */
  method RequestNothing(p: Pointer, granted: bool, inPlace: bool, rest: u8) returns (r: AllocBuf?)
    requires p.Valid()
    modifies p, p.to
    ensures p.Valid() && r == p.to
    ensures r != null <==> old(p.to) != null || granted
    ensures old(p.to) != null ==> r == old(p.to) && r.buf == old(p.to.buf) && !r.freed
    ensures r != null ==> r.Valid() && (old(p.to) == null ==> r.buf.Length == 56)
  {
    r := p.AflRealloc(0, granted, inPlace, rest);
  }

  // ---- how often a growing buffer moves ----

  ghost predicate Modest(sizes: seq<u64>) {
    forall i :: 0 <= i < |sizes| ==> sizes[i] + AFL_ALLOC_SIZE_OFFSET <= TWO_TO_THE_32
  }

  /** The complete size after a number of moves is a power of two that has doubled with each but the first. */
  ghost predicate Doubled(completeSize: u64, moves: nat) {
    if moves == 0 then completeSize == 0
    else exists k: nat :: completeSize == Pow2(k) && INITIAL_GROWTH_SIZE * Pow2(moves - 1) <= completeSize
  }

  lemma NextSizeDoubles(current: u64, moves: nat, needed: u64)
    requires Doubled(current, moves) && current < needed <= TWO_TO_THE_32
    ensures Doubled(NextSize(needed), moves + 1)
  {
    hide NextPow2;
    var next := NextSize(needed);
    var k := 6;
    if needed < INITIAL_GROWTH_SIZE {
      assert Pow2(6) == 64;
    } else {
      NextPow2IsRoundUpIff(needed);
      k := OnesBelowPow2(needed - 1);
    }
    assert next == Pow2(k);
    if moves > 0 {
      var j :| current == Pow2(j) && INITIAL_GROWTH_SIZE * Pow2(moves - 1) <= current;
      if k <= j {
        PowAtMost(k, j);
        assert false;
      }
      Pow2Grows(j, k);
      assert Pow2(moves) == 2 * Pow2(moves - 1);
    }
  }

  lemma PowAtMost(j: nat, k: nat)
    requires j <= k
    ensures Pow2(j) <= Pow2(k)
  {
    if j < k {
      Pow2Grows(j, k);
    }
  }

  /** Any sequence of requests grows the buffer, moving it or not, at most 1 + log2(final / 64) times. */
  method Requests(sizes: seq<u64>, inPlace: seq<bool>, rest: u8) returns (p: Pointer, moves: nat)
    requires Modest(sizes) && |inPlace| == |sizes|
    ensures p.Valid() && (p.to == null <==> sizes == [])
    ensures p.to != null ==> forall i :: 0 <= i < |sizes| ==> sizes[i] <= p.to.buf.Length
    ensures p.to != null ==> 1 <= moves && INITIAL_GROWTH_SIZE * Pow2(moves - 1) <= p.to.completeSize
  {
    hide NextSize;
    p := new Pointer();
    moves := 0;
    for n := 0 to |sizes|
      invariant fresh(p) && (p.to != null ==> fresh(p.to)) && p.Valid() && (p.to == null <==> n == 0)
      invariant p.to != null ==> forall i :: 0 <= i < n ==> sizes[i] <= p.to.buf.Length
      invariant Doubled(p.CompleteSize(), moves)
    {
      var current := p.CompleteSize();
      var _ := p.AflRealloc(sizes[n], true, inPlace[n], rest);
      if p.CompleteSize() != current {
        NextSizeDoubles(current, moves, sizes[n] + AFL_ALLOC_SIZE_OFFSET);
        moves := moves + 1;
      }
    }
  }
}
