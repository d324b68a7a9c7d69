/** Random numbers below a limit, and which of the generator's words they stand for. */
module Rand {
  import opened Words
  import Xxh64
  import Xxh64Distinct

  const UINT64_MAX: nat := 0xffff_ffff_ffff_ffff
  const RESEED_RNG: nat := 100000

  // ---- remainders ----

  lemma SmallMultiple(d: int, k: int)
    requires 0 - d < d * k < d
    ensures k == 0
  {
    BigMultiple(d, k);
    BigMultiple(d, -k);
  }

  lemma BigMultiple(d: int, k: int)
    ensures d >= 0 && k >= 1 ==> d * k >= d
    ensures d * -k == 0 - d * k
  {
  }

  lemma RemainderOf(q: nat, d: nat, m: nat)
    requires m < d
    ensures (q * d + m) % d == m && (q * d + m) / d == q
  {
    var x := q * d + m;
    var q', m' := x / d, x % d;
    assert x == d * q' + m';
    assert d * (q' - q) == d * q' - d * q;
    SmallMultiple(d, q' - q);
  }

  // ---- how many words give each result ----

  /** The words below n that leave the remainder r. */
  ghost function Preimages(n: nat, limit: nat, r: nat): set<nat>
    requires limit > 0
  {
    set x: nat | x < n && x % limit == r
  }

  lemma {:induction false} CountPreimages(q: nat, m: nat, limit: nat, r: nat)
    requires m <= limit && r < limit
    ensures |Preimages(q * limit + m, limit, r)| == q + if r < m then 1 else 0
    decreases q, m
  {
    var n := q * limit + m;
    if m > 0 {
      CountPreimages(q, m - 1, limit, r);
      RemainderOf(q, limit, m - 1);
      OneMore(n - 1, limit, r);
    } else if q > 0 {
      CountPreimages(q - 1, limit, limit, r);
      assert (q - 1) * limit + limit == q * limit;
    } else {
      assert Preimages(0, limit, r) == {};
    }
  }

  lemma OneMore(n: nat, limit: nat, r: nat)
    requires limit > 0
    ensures |Preimages(n + 1, limit, r)| == |Preimages(n, limit, r)| + if n % limit == r then 1 else 0
  {
    assert Preimages(n + 1, limit, r) == Preimages(n, limit, r) + if n % limit == r then {n} else {};
  }

  /** The rejection sampling keeps a word below the largest multiple of the limit up to UINT64_MAX. */
  function Bound(limit: u32): nat
    requires limit > 0
  {
    UINT64_MAX - UINT64_MAX % limit
  }

  predicate Accepted(x: u64, limit: u32)
    requires limit > 0
  {
    x < Bound(limit)
  }

  ghost function AcceptedFor(limit: u32, r: nat): set<u64>
    requires limit > 0
  {
    set x: u64 | Accepted(x, limit) && x % limit == r
  }

  /** Every result below the limit stands for the same number of accepted words. */
  lemma Unbiased(limit: u32, r: nat)
    requires r < limit
    ensures |AcceptedFor(limit, r)| == UINT64_MAX / limit
  {
    var q := UINT64_MAX / limit;
    assert Bound(limit) == q * limit;
    CountPreimages(q, 0, limit, r);
    SameSet(Preimages(Bound(limit), limit, r), AcceptedFor(limit, r));
  }

  lemma {:induction false} SameSet(s: set<nat>, t: set<u64>)
    requires (forall x :: x in s ==> 0 <= x < TWO_TO_THE_64 && x in t) && forall x :: x in t ==> x in s
    ensures |s| == |t|
  {
    if s != {} {
      var x :| x in s;
      SameSet(s - {x}, t - {x});
    } else {
      assert t == {};
    }
  }

  /** No more words than the limit are rejected. */
  lemma RejectsFew(limit: u32)
    requires limit > 0
    ensures UINT64_MAX + 1 - Bound(limit) <= limit
  {
  }

  /** A generator of 32-bit words has none rejected, and is unbiased only for limits that divide 2^32. */
  lemma NarrowGeneratorIsBiased(limit: u32)
    requires limit > 0
    ensures forall x: u32 :: Accepted(x, limit)
    ensures (forall r: nat :: r < limit ==> |Preimages(TWO_TO_THE_32, limit, r)| == TWO_TO_THE_32 / limit)
            <==> TWO_TO_THE_32 % limit == 0
  {
    RejectsFew(limit);
    var q, m := TWO_TO_THE_32 / limit, TWO_TO_THE_32 % limit;
    assert q * limit + m == TWO_TO_THE_32;
    forall r: nat | r < limit
      ensures |Preimages(TWO_TO_THE_32, limit, r)| == q + if r < m then 1 else 0
    {
      CountPreimages(q, m, limit, r);
    }
    if m > 0 {
      assert |Preimages(TWO_TO_THE_32, limit, 0)| != q;
    }
  }

  // ---- the generator ----

  /** RomuDuoJr keeps two words. */
  datatype Seed = Seed(s0: u64, s1: u64)

  const MULTIPLIER: nat := 15241094284759029579
  const INVERSE: nat := 4888251478366616163

  /** rand_next yields the first word and moves on. */
  function Draw(s: Seed): u64 { s.s0 }

  function Next(s: Seed): Seed {
    Seed(MULTIPLIER * s.s1 % TWO_TO_THE_64, Rotated27(Sub(s.s1, s.s0)))
  }

  /** Rotated left by 27: the two parts have no bit in common. */
  function Rotated27(x: u64): u64 { x % 0x20_0000_0000 * 0x800_0000 + x / 0x20_0000_0000 }

  function Rotated37(x: u64): u64 { x % 0x800_0000 * 0x20_0000_0000 + x / 0x800_0000 }

  function Previous(s: Seed): Seed {
    var s1 := INVERSE * s.s0 % TWO_TO_THE_64;
    Seed(Sub(s1, Rotated37(s.s1)), s1)
  }

  /** No two seeds lead to the same one, so that uniform seeds stay uniform. */
  lemma NextIsReversible(s: Seed)
    ensures Previous(Next(s)) == s
  {
    Multiplied(s.s1);
    RotatedBack(Sub(s.s1, s.s0));
    SubtractedBack(s.s1, s.s0);
    hide Rotated27, Rotated37, Sub;
  }

  lemma SubtractedBack(x: u64, y: u64)
    ensures Sub(x, Sub(x, y)) == y
  {
  }

  lemma Multiplied(x: u64)
    ensures INVERSE * (MULTIPLIER * x % TWO_TO_THE_64) % TWO_TO_THE_64 == x
  {
    var q, y := Quotient(MULTIPLIER * x);
    var t := 4038777866256603611 * x - INVERSE * q;
    assert INVERSE * y == x + t * TWO_TO_THE_64;
    WholeTurns(x, t);
  }

  lemma Divided(x: u64)
    ensures MULTIPLIER * (INVERSE * x % TWO_TO_THE_64) % TWO_TO_THE_64 == x
  {
    var q, y := Quotient(INVERSE * x);
    var t := 4038777866256603611 * x - MULTIPLIER * q;
    assert MULTIPLIER * y == x + t * TWO_TO_THE_64;
    WholeTurns(x, t);
  }

  lemma Quotient(x: nat) returns (q: nat, y: u64)
    ensures y == x % TWO_TO_THE_64 && x == q * TWO_TO_THE_64 + y
  {
    q, y := x / TWO_TO_THE_64, x % TWO_TO_THE_64;
  }

  lemma WholeTurns(x: u64, t: int)
    ensures (x + t * TWO_TO_THE_64) % TWO_TO_THE_64 == x
  {
  }

  lemma RotatedBack(x: u64)
    ensures Rotated37(Rotated27(x)) == x
  {
    var hi, lo := x / 0x20_0000_0000, x % 0x20_0000_0000;
    assert x == hi * 0x20_0000_0000 + lo;
    PartsOf(lo, hi);
  }

  lemma PartsOf(lo: nat, hi: nat)
    requires hi < 0x800_0000
    ensures (lo * 0x800_0000 + hi) / 0x800_0000 == lo && (lo * 0x800_0000 + hi) % 0x800_0000 == hi
  {
  }

  /** Either new word gives back the second word, the second one with the first. */
  lemma NextTells(s: Seed)
    ensures Add(Rotated37(Next(s).s1), Draw(s)) == s.s1 == INVERSE * Next(s).s0 % TWO_TO_THE_64
  {
    hide Rotated27, Rotated37, Add, Sub;
    Multiplied(s.s1);
    RotatedBack(Sub(s.s1, s.s0));
    AddedBack(s.s1, s.s0);
  }

  lemma AddedBack(x: u64, y: u64)
    ensures Add(Sub(x, y), y) == x
  {
  }

  /** The seed after n draws. */
  function After(s: Seed, n: nat): Seed
    decreases n
  {
    if n == 0 then s else After(Next(s), n - 1)
  }

  lemma {:induction false} AfterOneMore(s: Seed, n: nat)
    ensures After(s, n + 1) == Next(After(s, n))
    decreases n
  {
    if n > 0 {
      AfterOneMore(Next(s), n - 1);
    }
  }

  lemma AfterNone(s: Seed)
    ensures After(s, 0) == s && After(s, 1) == Next(s)
  {
  }

  // ---- the first seed ----

  const HASH_CONST: u64 := 0xa5b35705

  /** What rand_set_seed leaves, as far as 64-bit machines use it: a hash, and that with bits flipped. */
  function FirstSeed(initSeed: u64): Seed {
    var h := Xxh64.Hash(HASH_CONST, Bytes(initSeed));
    Seed(h, Xor64(h, 0x1234_5678_90ab_cdef))
  }

  /** Every initial seed gives a state of its own. */
  lemma FirstSeedsDiffer(x: u64, y: u64)
    requires FirstSeed(x) == FirstSeed(y)
    ensures x == y
  {
    hide Xxh64.Hash, Xor64, Bytes;
    Xxh64Distinct.OneWordTells(HASH_CONST, Bytes(x), Bytes(y));
    ReadBack(x);
    ReadBack(y);
  }

  /** The generator is never in the state that is everywhere zero, and would stay there. */
  lemma {:induction false} NeverAllZero(initSeed: u64, n: nat)
    ensures After(FirstSeed(initSeed), n) != Seed(0, 0)
    decreases n
  {
    hide Xxh64.Hash, Xor64, Next, Previous, After, FirstSeed;
    if n == 0 {
      FirstNotZero(initSeed);
      AfterNone(FirstSeed(initSeed));
    } else {
      var before := After(FirstSeed(initSeed), n - 1);
      NeverAllZero(initSeed, n - 1);
      AfterOneMore(FirstSeed(initSeed), n - 1);
      NextIsReversible(before);
      NextIsReversible(Seed(0, 0));
      ZeroStays();
    }
  }

  lemma ZeroStays()
    ensures Next(Seed(0, 0)) == Seed(0, 0)
  {
  }

  lemma FirstNotZero(initSeed: u64)
    ensures FirstSeed(initSeed) != Seed(0, 0)
  {
    hide Xxh64.Hash, Xor;
    if FirstSeed(initSeed).s0 == 0 {
      XorZero(0x1234_5678_90ab_cdef);
    }
  }

  // ---- whether a draw is ever accepted ----

  ghost predicate AcceptedWithin(s: Seed, limit: u32, draws: nat)
    requires limit > 0
  {
    exists n: nat :: n < draws && Accepted(Draw(After(s, n)), limit)
  }

  predicate NotBelow(lo: nat, x: nat) { lo <= x }

  ghost function Range(lo: nat, hi: nat): set<nat> {
    set x: nat | x < hi && NotBelow(lo, x)
  }

  lemma {:induction false} CountRange(lo: nat, hi: nat)
    requires lo <= hi
    ensures |Range(lo, hi)| == hi - lo
    decreases hi
  {
    if lo < hi {
      CountRange(lo, hi - 1);
      assert Range(lo, hi) == Range(lo, hi - 1) + {hi - 1};
    } else {
      assert Range(lo, hi) == {};
    }
  }

  /** The words that are not accepted. */
  ghost function Rejected(limit: u32): set<nat>
    requires limit > 0
  {
    Range(Bound(limit), TWO_TO_THE_64)
  }

  lemma CountRejected(limit: u32)
    requires limit > 0
    ensures |Rejected(limit)| == UINT64_MAX % limit + 1 <= limit
  {
    CountRange(Bound(limit), TWO_TO_THE_64);
  }

  /** The seeds with a first word of `a` and a second one of `b`. */
  ghost function Drawing(a: set<nat>, b: set<nat>): set<Seed> {
    set x: u64, y: u64 | x in a && MULTIPLIER * y % TWO_TO_THE_64 in b :: Seed(x, y)
  }

  lemma {:induction false} CountFor(x: u64, b: set<nat>)
    requires forall c :: c in b ==> c < TWO_TO_THE_64
    ensures |Drawing({x as nat}, b)| == |b|
  {
    if b == {} {
      assert Drawing({x as nat}, b) == {};
    } else {
      var c :| c in b;
      CountFor(x, b - {c});
      OnlyOne(x, c);
      assert Drawing({x as nat}, b) == Drawing({x as nat}, b - {c}) + {Seed(x, INVERSE * c % TWO_TO_THE_64)};
    }
  }

  lemma OnlyOne(x: u64, c: u64)
    ensures forall y: u64 :: MULTIPLIER * y % TWO_TO_THE_64 == c <==> y == INVERSE * c % TWO_TO_THE_64
  {
    Divided(c);
    forall y: u64 | MULTIPLIER * y % TWO_TO_THE_64 == c
      ensures y == INVERSE * c % TWO_TO_THE_64
    {
      Multiplied(y);
    }
  }

  lemma DrawingSplits(a: set<nat>, b: set<nat>, x: nat)
    requires x in a
    ensures Drawing(a, b) == Drawing(a - {x}, b) + Drawing({x}, b) && Drawing(a - {x}, b) !! Drawing({x}, b)
  {
    forall s | s in Drawing(a, b)
      ensures s in Drawing(a - {x}, b) || s in Drawing({x}, b)
    {
      InDrawing(s, a, b);
      InDrawing(s, a - {x}, b);
      InDrawing(s, {x}, b);
    }
  }

  lemma InDrawing(s: Seed, a: set<nat>, b: set<nat>)
    ensures s in Drawing(a, b) <==> s.s0 in a && MULTIPLIER * s.s1 % TWO_TO_THE_64 in b
  {
    assert s == Seed(s.s0, s.s1);
  }

  lemma {:induction false} CountDrawing(a: set<nat>, b: set<nat>)
    requires (forall x :: x in a ==> x < TWO_TO_THE_64) && forall c :: c in b ==> c < TWO_TO_THE_64
    ensures |Drawing(a, b)| == |a| * |b|
  {
    if a == {} {
      assert Drawing(a, b) == {};
    } else {
      hide Drawing;
      var x :| x in a;
      var left := a - {x};
      CountDrawing(left, b);
      OneRowMore(|left|, |b|);
      assert |a| == |left| + 1;
      RowsAdd(a, b, x);
    }
  }

  lemma RowsAdd(a: set<nat>, b: set<nat>, x: nat)
    requires x in a && x < TWO_TO_THE_64 && forall c :: c in b ==> c < TWO_TO_THE_64
    ensures |Drawing(a, b)| == |Drawing(a - {x}, b)| + |b|
  {
    hide Drawing;
    CountFor(x, b);
    DrawingSplits(a, b, x);
  }

  lemma OneRowMore(m: nat, n: nat)
    ensures (m + 1) * n == m * n + n
  {
  }

  /** The seeds whose first two draws are rejected. */
  ghost function RejectedTwice(limit: u32): set<Seed>
    requires limit > 0
  {
    set x: u64, y: u64 |
      !Accepted(Draw(Seed(x, y)), limit) && !Accepted(Draw(Next(Seed(x, y))), limit) :: Seed(x, y)
  }

  /** Of the 2^128 seeds, no more than the square of the limit see their first two draws rejected. */
  lemma FewRejectedTwice(limit: u32)
    requires limit > 0
    ensures var rejected := UINT64_MAX % limit + 1;
            rejected <= limit && |RejectedTwice(limit)| == rejected * rejected
    ensures forall s: Seed :: !AcceptedWithin(s, limit, 2) <==> s in RejectedTwice(limit)
  {
    CountRejected(limit);
    CountDrawing(Rejected(limit), Rejected(limit));
    assert RejectedTwice(limit) == Drawing(Rejected(limit), Rejected(limit));
    forall s: Seed
      ensures !AcceptedWithin(s, limit, 2) <==> s in RejectedTwice(limit)
    {
      FirstTwo(s, limit);
      assert s == Seed(s.s0, s.s1);
    }
  }

  lemma FirstTwo(s: Seed, limit: u32)
    requires limit > 0
    ensures AcceptedWithin(s, limit, 2) <==> Accepted(Draw(s), limit) || Accepted(Draw(Next(s)), limit)
  {
    assert After(s, 0) == s && After(s, 1) == Next(s);
  }

  /** Limits that divide 2^64 - 1, such as 3, reject one word only, and no seed gives that three times in a row. */
  lemma DivisorsSettle(s: Seed, limit: u32)
    requires limit > 0 && UINT64_MAX % limit == 0
    ensures AcceptedWithin(s, limit, 3)
  {
    hide Draw, Next;
    assert After(s, 0) == s && After(s, 1) == Next(s) && After(s, 2) == Next(Next(s));
    NotThrice(s);
    assert forall x: u64 :: x != UINT64_MAX ==> Accepted(x, limit);
  }

  lemma NotThrice(s: Seed)
    ensures !(Draw(s) == Draw(Next(s)) == Draw(Next(Next(s))) == UINT64_MAX)
  {
    if Draw(s) == Draw(Next(s)) == Draw(Next(Next(s))) == UINT64_MAX {
      LastFrom(s.s1);
      LastFrom(Next(s).s1);
      assert false;
    }
  }

  /** Only one second word gives the last word. */
  lemma LastFrom(y: u64)
    requires MULTIPLIER * y % TWO_TO_THE_64 == UINT64_MAX
    ensures y == 13558492595342935453
  {
    Multiplied(y);
  }

  /** The zero seed stays as it is, and zero is always accepted. */
  lemma {:induction false} ZeroSeedSettles(limit: u32, n: nat)
    requires limit > 0
    ensures After(Seed(0, 0), n) == Seed(0, 0) && Accepted(Draw(After(Seed(0, 0), n)), limit)
    decreases n
  {
    assert Next(Seed(0, 0)) == Seed(0, 0);
    if n > 0 {
      ZeroSeedSettles(limit, n - 1);
    }
  }

  // ---- what a call does ----

  /** The numbers of the state: calls left before new randomness is read, and the seed. */
  datatype Rng = Rng(count: u32, seed: Seed)

  /** The countdown, with what a read of the system's randomness would give. */
  function Reseeded(g: Rng, fixedSeed: bool, urandom: Seed): Rng {
    if g.count == 0 && !fixedSeed then Rng(RESEED_RNG / 2 + urandom.s1 % RESEED_RNG, urandom)
    else Rng(Sub32(g.count, 1), g.seed)
  }

  ghost predicate FirstAccepted(s: Seed, limit: u32, n: nat)
    requires limit > 0
  {
    Accepted(Draw(After(s, n)), limit) && forall m :: 0 <= m < n ==> !Accepted(Draw(After(s, m)), limit)
  }

  /** r comes from the first accepted draw from s, and the seed has moved past that. */
  ghost predicate Sampled(s: Seed, limit: u32, r: u32, seed: Seed)
    requires limit > 0
  {
    exists n: nat :: FirstAccepted(s, limit, n) && r == Draw(After(s, n)) % limit && seed == After(s, n + 1)
  }

  /** What a call leads to within so many draws: a result, or none so far. */
  ghost predicate Below(limit: u32, g: Rng, fixedSeed: bool, urandom: Seed, draws: nat, r: Option<u32>, g': Rng) {
    if limit <= 1 then r == Some(0) && g' == g
    else
      var from := Reseeded(g, fixedSeed, urandom);
      && g'.count == from.count
      && (r.Some? <==> AcceptedWithin(from.seed, limit, draws))
      && if r.Some? then Sampled(from.seed, limit, r.value, g'.seed) else g'.seed == After(from.seed, draws)
  }

  /** A result does not depend on how many draws are allowed, and leaves the same state. */
  lemma BelowIsUnique(limit: u32, g: Rng, fixedSeed: bool, urandom: Seed, draws: nat, r: u32, g': Rng,
                      draws': nat, r': u32, g'': Rng)
    requires Below(limit, g, fixedSeed, urandom, draws, Some(r), g')
    requires Below(limit, g, fixedSeed, urandom, draws', Some(r'), g'')
    ensures r == r' && g' == g''
  {
    if limit > 1 {
      var s := Reseeded(g, fixedSeed, urandom).seed;
      hide After, Draw, Accepted, Reseeded;
      var n: nat :| FirstAccepted(s, limit, n) && r == Draw(After(s, n)) % limit && g'.seed == After(s, n + 1);
      var m: nat :| FirstAccepted(s, limit, m) && r' == Draw(After(s, m)) % limit && g''.seed == After(s, m + 1);
      assert n == m;
    }
  }

  // ---- afl_state_t, as far as it is about random numbers ----

  class Afl {
    var randCnt: u32
    var seed: Seed
    const fixedSeed: bool

    /** Unless the seed is fixed, new randomness comes at least every so many calls. */
    ghost predicate Valid()
      reads this
    {
      fixedSeed || randCnt < RESEED_RNG / 2 + RESEED_RNG
    }

    function Numbers(): Rng
      reads this
    {
      Rng(randCnt, seed)
    }

    constructor (seed: Seed, fixedSeed: bool)
      ensures Valid() && this.fixedSeed == fixedSeed && Numbers() == Rng(0, seed)
    {
      this.randCnt := 0;
      this.seed := seed;
      this.fixedSeed := fixedSeed;
    }

    /** rand_set_seed, from what the initial seed is in memory. */
    method RandSetSeed(initSeed: u64)
      modifies this`seed
      ensures seed == FirstSeed(initSeed)
    {
      hide Xxh64.Hash, Xor64, Bytes;
      var h := Xxh64.OneShot(Bytes(initSeed), HASH_CONST);
      seed := Seed(h, Xor64(h, 0x1234_5678_90ab_cdef));
    }

    method Reseed(urandom: Seed)
      requires Valid()
      modifies this
      ensures Valid() && Numbers() == Reseeded(old(Numbers()), fixedSeed, urandom)
    {
      var was := randCnt;
      randCnt := Sub32(randCnt, 1);
      if was == 0 && !fixedSeed {
        seed := urandom;
        randCnt := RESEED_RNG / 2 + seed.s1 % RESEED_RNG;
      }
    }

    method RandNext() returns (x: u64)
      modifies this`seed
      ensures x == Draw(old(seed)) && seed == Next(old(seed))
    {
      x := seed.s0;
      var s0: u64 := 15241094284759029579 * seed.s1 % TWO_TO_THE_64;
      var s1 := Sub(seed.s1, x);
      s1 := Rotated27(s1);
      seed := Seed(s0, s1);
    }

    /** The first accepted draw decides; `draws` tells how many are watched. */
    method RandBelow(limit: u32, urandom: Seed, draws: nat) returns (r: Option<u32>)
      requires Valid()
      modifies this
      ensures Valid() && Below(limit, old(Numbers()), fixedSeed, urandom, draws, r, Numbers())
      ensures limit > 1 && r.Some? ==> r.value < limit
    {
      hide Draw, Next, After, Reseeded;
      if limit <= 1 {
        return Some(0);
      }
      Reseed(urandom);
      ghost var from := seed;
      AfterNone(from);
      if draws == 0 {
        return None;
      }
      var rnd := RandNext();
      var n := 1;
      while rnd >= UINT64_MAX - UINT64_MAX % limit && n < draws
        invariant 1 <= n <= draws && rnd == Draw(After(from, n - 1)) && seed == After(from, n)
        invariant randCnt == Reseeded(old(Numbers()), fixedSeed, urandom).count
        invariant forall m :: 0 <= m < n - 1 ==> !Accepted(Draw(After(from, m)), limit)
        invariant Valid()
        decreases draws - n
      {
        AfterOneMore(from, n);
        rnd := RandNext();
        n := n + 1;
      }
      if rnd >= UINT64_MAX - UINT64_MAX % limit {
        return None;
      }
      assert FirstAccepted(from, limit, n - 1);
      r := Some(rnd % limit);
    }

    /** The first draw decides whether the next is reduced by none, one or two more. */
    method RandBelowDatalen(limit: u32, urandom: Seed, draws: nat)
      returns (r: Option<u32>, ghost drawn: seq<u32>, ghost passed: seq<Rng>)
      requires Valid()
      modifies this
      ensures Valid() && passed != [] && passed[0] == old(Numbers())
      ensures limit <= 1 ==> r == Some(0) && Numbers() == old(Numbers())
      ensures limit > 1 ==> Drawn(limit, fixedSeed, urandom, draws, drawn, passed)
      ensures limit > 1 && r.Some? ==>
                ReducedTo(drawn, r.value) && r.value < limit && Numbers() == passed[|drawn|]
      ensures limit > 1 && r.None? ==>
                && |drawn| < Wanted(drawn)
                && Below(LimitAt(limit, |drawn|), passed[|drawn|], fixedSeed, urandom, draws, None, Numbers())
    {
      drawn, passed := [], [Numbers()];
      if limit <= 1 {
        return Some(0), drawn, passed;
      }
      hide Below, Drawn, ReducedTo, Cut;
      DrawnNone(limit, fixedSeed, urandom, draws, passed[0]);
      var which, x, d1, d2;
      which, drawn, passed := DrawNext(limit, 3, urandom, draws, drawn, passed);
      if which == None {
        return None, drawn, passed;
      }
      x, drawn, passed := DrawNext(limit, limit, urandom, draws, drawn, passed);
      if x == None {
        return None, drawn, passed;
      }
      if which.value == 0 {
        ByNone(drawn);
        return x, drawn, passed;
      }
      d1, drawn, passed := DrawNext(limit, limit - 1, urandom, draws, drawn, passed);
      if d1 == None {
        return None, drawn, passed;
      }
      if which.value == 1 {
        ByOne(drawn);
        return Some(Cut(x.value, d1.value)), drawn, passed;
      }
      d2, drawn, passed := DrawNext(limit, limit - 1, urandom, draws, drawn, passed);
      if d2 == None {
        return None, drawn, passed;
      }
      ByTwo(drawn);
      r := Some(Cut(Cut(x.value, d1.value), d2.value));
    }

    /** One of the draws, which joins those before. */
    method DrawNext(limit: u32, below: u32, urandom: Seed, draws: nat, ghost drawn: seq<u32>, ghost passed: seq<Rng>)
      returns (x: Option<u32>, ghost drawn': seq<u32>, ghost passed': seq<Rng>)
      requires Valid() && limit > 1 && below == LimitAt(limit, |drawn|)
      requires Drawn(limit, fixedSeed, urandom, draws, drawn, passed) && passed[|drawn|] == Numbers()
      modifies this
      ensures Valid() && Drawn(limit, fixedSeed, urandom, draws, drawn', passed') && passed <= passed'
      ensures x.Some? ==> drawn' == drawn + [x.value] && passed'[|drawn'|] == Numbers()
      ensures x.Some? ==> if below <= 1 then x.value == 0 else x.value < below
      ensures x.None? ==> drawn' == drawn && Below(below, passed'[|drawn|], fixedSeed, urandom, draws, None, Numbers())
    {
      drawn', passed' := drawn, passed;
      x := RandBelow(below, urandom, draws);
      if x.Some? {
        DrawnMore(limit, fixedSeed, urandom, draws, drawn, passed, x.value, Numbers());
        drawn', passed' := drawn + [x.value], passed + [Numbers()];
      }
      hide Below, Drawn;
    }
  }

  lemma DrawnNone(limit: u32, fixedSeed: bool, urandom: Seed, draws: nat, g: Rng)
    requires limit > 1
    ensures Drawn(limit, fixedSeed, urandom, draws, [], [g])
  {
  }

  lemma DrawnMore(limit: u32, fixedSeed: bool, urandom: Seed, draws: nat, drawn: seq<u32>, passed: seq<Rng>,
                  x: u32, g: Rng)
    requires limit > 1 && Drawn(limit, fixedSeed, urandom, draws, drawn, passed)
    requires Below(LimitAt(limit, |drawn|), passed[|drawn|], fixedSeed, urandom, draws, Some(x), g)
    ensures Drawn(limit, fixedSeed, urandom, draws, drawn + [x], passed + [g])
  {
    hide Below;
  }

  /** The limits that are drawn for. */
  function LimitAt(limit: u32, i: nat): u32
    requires limit > 1
  {
    if i == 0 then 3 else if i == 1 then limit else limit - 1
  }

  /** How many draws there are to be, as the first decides. */
  function Wanted(drawn: seq<u32>): nat {
    2 + if drawn == [] then 0 else drawn[0] as nat
  }

  /** One number after the other was drawn, each for its limit, passing through these states. */
  ghost predicate Drawn(limit: u32, fixedSeed: bool, urandom: Seed, draws: nat, drawn: seq<u32>, passed: seq<Rng>)
    requires limit > 1
  {
    && |passed| == |drawn| + 1
    && forall i :: 0 <= i < |drawn| ==>
         Below(LimitAt(limit, i), passed[i], fixedSeed, urandom, draws, Some(drawn[i]), passed[i + 1])
  }

  /** x is r and a multiple of d, and r is less than d. */
  ghost predicate Remainder(x: nat, d: nat, r: nat) {
    r < d && exists q: nat :: x == Times(q, d) + r
  }

  function Times(q: nat, d: nat): nat { q * d }

  /** The second draw as it is, or what is left of it by one more than each of those that follow. */
  ghost predicate ReducedTo(drawn: seq<u32>, r: nat) {
    || (|drawn| == 2 && drawn[0] == 0 && r == drawn[1])
    || (|drawn| == 3 && drawn[0] == 1 && Remainder(drawn[1], 1 + drawn[2] as nat, r))
    || (|drawn| == 4 && drawn[0] == 2 && RemainderOfTwo(drawn[1], 1 + drawn[2] as nat, 1 + drawn[3] as nat, r))
  }

  ghost predicate RemainderOfTwo(x: nat, d: nat, e: nat, r: nat) {
    exists left: nat :: Remainder(x, d, left) && Remainder(left, e, r)
  }

  lemma RemainderIs(x: nat, d: nat)
    requires d > 0
    ensures x % d <= x && Remainder(x, d, x % d)
  {
    var q, r := x / d, x % d;
    assert x == d * q + r;
    assert Times(q, d) == d * q;
  }

  function Cut(x: u32, c: u32): (r: u32)
    ensures r <= x
  {
    RemainderIs(x, 1 + c);
    x % (1 + c)
  }

  lemma ByNone(drawn: seq<u32>)
    requires |drawn| == 2 && drawn[0] == 0
    ensures ReducedTo(drawn, drawn[1])
  {
  }

  lemma ByOne(drawn: seq<u32>)
    requires |drawn| == 3 && drawn[0] == 1
    ensures ReducedTo(drawn, Cut(drawn[1], drawn[2]))
  {
    hide Remainder;
    RemainderIs(drawn[1], 1 + drawn[2] as nat);
  }

  lemma ByTwo(drawn: seq<u32>)
    requires |drawn| == 4 && drawn[0] == 2
    ensures ReducedTo(drawn, Cut(Cut(drawn[1], drawn[2]), drawn[3]))
  {
    hide Remainder;
    RemainderIs(drawn[1], 1 + drawn[2] as nat);
    RemainderIs(Cut(drawn[1], drawn[2]), 1 + drawn[3] as nat);
  }

  /** The draws determine the result. */
  lemma OneResult(drawn: seq<u32>, r: nat, r': nat)
    requires ReducedTo(drawn, r) && ReducedTo(drawn, r')
    ensures r == r'
  {
    hide Remainder;
    if drawn[0] == 1 {
      OneRemainder(drawn[1], 1 + drawn[2] as nat, r, r');
    } else if drawn[0] == 2 {
      var d, e := 1 + drawn[2] as nat, 1 + drawn[3] as nat;
      var left: nat :| Remainder(drawn[1], d, left) && Remainder(left, e, r);
      var left': nat :| Remainder(drawn[1], d, left') && Remainder(left', e, r');
      OneRemainder(drawn[1], d, left, left');
      OneRemainder(left, e, r, r');
    }
  }

  lemma OneRemainder(x: nat, d: nat, r: nat, r': nat)
    requires Remainder(x, d, r) && Remainder(x, d, r')
    ensures r == r'
  {
    var q: nat :| x == Times(q, d) + r;
    var q': nat :| x == Times(q', d) + r';
    assert Times(q, d) == d * q && Times(q', d) == d * q';
    SameParts(d, q, r, q', r');
  }

  lemma RemainderIsLower(x: nat, d: nat, r: nat)
    requires Remainder(x, d, r)
    ensures r <= x && r < d
  {
  }

  /** Lower values are preferred: the result is never above the plain draw, nor above what that is reduced by. */
  lemma PreferredIsLower(drawn: seq<u32>, r: nat)
    requires ReducedTo(drawn, r)
    ensures forall i :: 1 <= i < |drawn| ==> r <= drawn[i]
  {
    hide Remainder;
    if drawn[0] == 1 {
      RemainderIsLower(drawn[1], 1 + drawn[2] as nat, r);
    } else if drawn[0] == 2 {
      var d, e := 1 + drawn[2] as nat, 1 + drawn[3] as nat;
      var left: nat :| Remainder(drawn[1], d, left) && Remainder(left, e, r);
      RemainderIsLower(drawn[1], d, left);
      RemainderIsLower(left, e, r);
    }
  }
}
