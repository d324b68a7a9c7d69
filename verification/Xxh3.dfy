/**
 * The long-input core of XXH3: which mixing steps an input goes through, and the
 * block-structured loop that performs them in one call.
 *
 * A Trace is the list of mixing steps performed on the accumulators. Two runs with the same
 * trace leave the same lanes, whichever mixing functions are used, so the results about
 * cutting and buffering are stated on traces; `Lanes` says what a trace leaves in memory.
 */
module Xxh3 {
  import opened Words
  import opened Xxh3Lanes

  const CONSUME_RATE: nat := 8
  const SECRET_SIZE_MIN: nat := 136
  const MIDSIZE_MAX: nat := 240
  const LASTACC_START: nat := 7
  const MERGEACCS_START: nat := 11

  type Secret = s: seq<u8> | |s| >= 136 witness seq(136, _ => 0)

  datatype Trace = Init | Accumulated(before: Trace, stripe: Bytes64, key: Bytes64)
    | Scrambled(before: Trace, key: Bytes64)

  function Lanes(t: Trace): Acc {
    match t
    case Init => INIT_ACC
    case Accumulated(before, stripe, key) => Accumulate512(Lanes(before), stripe, key)
    case Scrambled(before, key) => Scramble(Lanes(before), key)
  }

  function StripesPerBlock(secret: Secret): (n: nat)
    ensures n >= 9 && (n - 1) * CONSUME_RATE + STRIPE_LEN + CONSUME_RATE <= |secret|
  {
    (|secret| - STRIPE_LEN) / CONSUME_RATE
  }

  function Segment(b: seq<u8>, at: nat): Bytes64
    requires at + STRIPE_LEN <= |b|
  {
    b[at..at + STRIPE_LEN]
  }

  /** The steps so far, and how many stripes of the current block are among them. */
  datatype Core = Core(trace: Trace, pos: nat)

  /** One stripe, followed by a scramble when it is the last of its block. */
  function Stripe(secret: Secret, c: Core, stripe: Bytes64): (r: Core)
    requires c.pos < StripesPerBlock(secret)
    ensures r.pos < StripesPerBlock(secret)
  {
    var a := Accumulated(c.trace, stripe, Segment(secret, c.pos * CONSUME_RATE));
    if c.pos + 1 == StripesPerBlock(secret)
    then Core(Scrambled(a, Segment(secret, |secret| - STRIPE_LEN)), 0)
    else Core(a, c.pos + 1)
  }

  /** The first `n` stripes of `data`, one after the other. */
  function Absorb(secret: Secret, c: Core, data: seq<u8>, n: nat): (r: Core)
    requires n * STRIPE_LEN <= |data|
    requires c.pos < StripesPerBlock(secret)
    ensures r.pos < StripesPerBlock(secret)
  {
    if n == 0 then c
    else Stripe(secret, Absorb(secret, c, data, n - 1), Segment(data, (n - 1) * STRIPE_LEN))
  }

  const START: Core := Core(Init, 0)

  /** All stripes but the last go through `Absorb`; the last 64 bytes are accumulated once more. */
  function LongTrace(secret: Secret, data: seq<u8>): Trace
    requires |data| >= STRIPE_LEN
  {
    Accumulated(Absorb(secret, START, data, (|data| - 1) / STRIPE_LEN).trace,
                Segment(data, |data| - STRIPE_LEN),
                Segment(secret, |secret| - STRIPE_LEN - LASTACC_START))
  }

  function LongHash(secret: Secret, data: seq<u8>): u64
    requires |data| >= STRIPE_LEN
  {
    MergeAccs(Lanes(LongTrace(secret, data)), Segment(secret, MERGEACCS_START), (|data| * PRIME64_1) % TWO_TO_THE_64)
  }

  // ---- Absorb follows the data ----

  lemma {:induction false} AbsorbSplit(secret: Secret, c: Core, data: seq<u8>, m: nat, n: nat)
    requires (m + n) * STRIPE_LEN <= |data|
    requires c.pos < StripesPerBlock(secret)
    ensures Absorb(secret, c, data, m + n)
         == Absorb(secret, Absorb(secret, c, data, m), data[m * STRIPE_LEN..], n)
  {
    hide Stripe, StripesPerBlock;
    if n > 0 {
      AbsorbSplit(secret, c, data, m, n - 1);
      assert Segment(data[m * STRIPE_LEN..], (n - 1) * STRIPE_LEN) == Segment(data, (m + n - 1) * STRIPE_LEN);
    }
  }

  /** Only the stripes absorbed matter, not what follows them. */
  lemma {:induction false} AbsorbAgree(secret: Secret, c: Core, data: seq<u8>, other: seq<u8>, n: nat)
    requires n * STRIPE_LEN <= |data| && n * STRIPE_LEN <= |other|
    requires data[..n * STRIPE_LEN] == other[..n * STRIPE_LEN]
    requires c.pos < StripesPerBlock(secret)
    ensures Absorb(secret, c, data, n) == Absorb(secret, c, other, n)
  {
    if n > 0 {
      var m := (n - 1) * STRIPE_LEN;
      assert data[..m] == data[..n * STRIPE_LEN][..m] && other[..m] == other[..n * STRIPE_LEN][..m];
      AbsorbAgree(secret, c, data, other, n - 1);
      assert Segment(data, m) == data[..n * STRIPE_LEN][m..];
      assert Segment(other, m) == other[..n * STRIPE_LEN][m..];
    }
  }

  // ---- XXH3_accumulate: stripes of one block, no scramble ----

  function Run(secret: Secret, t: Trace, pos: nat, data: seq<u8>, n: nat): Trace
    requires n * STRIPE_LEN <= |data|
    requires pos + n <= StripesPerBlock(secret)
  {
    if n == 0 then t
    else Accumulated(Run(secret, t, pos, data, n - 1), Segment(data, (n - 1) * STRIPE_LEN),
                     Segment(secret, (pos + n - 1) * CONSUME_RATE))
  }

  lemma {:induction false} RunIsAbsorb(secret: Secret, t: Trace, pos: nat, data: seq<u8>, n: nat)
    requires n * STRIPE_LEN <= |data|
    requires pos + n <= StripesPerBlock(secret) && pos < StripesPerBlock(secret)
    ensures Absorb(secret, Core(t, pos), data, n) ==
            (var a := Run(secret, t, pos, data, n);
             if pos + n < StripesPerBlock(secret) then Core(a, pos + n)
             else Core(Scrambled(a, Segment(secret, |secret| - STRIPE_LEN)), 0))
  {
    if n > 0 {
      RunIsAbsorb(secret, t, pos, data, n - 1);
    }
  }

  /** XXH3_accumulate on accumulators in memory. */
  method Accumulate(acc: array<u64>, ghost t: Trace, data: seq<u8>, secret: Secret, pos: nat, nbStripes: nat)
    returns (ghost r: Trace)
    requires nbStripes * STRIPE_LEN <= |data|
    requires pos + nbStripes <= StripesPerBlock(secret)
    requires acc[..] == Lanes(t)
    modifies acc
    ensures r == Run(secret, t, pos, data, nbStripes) && acc[..] == Lanes(r)
  {
    r := t;
    for n := 0 to nbStripes
      invariant r == Run(secret, t, pos, data, n) && acc[..] == Lanes(r)
    {
      r := AccumulateStep(acc, r, Segment(data, n * STRIPE_LEN), Segment(secret, (pos + n) * CONSUME_RATE));
    }
  }

  method AccumulateStep(acc: array<u64>, ghost t: Trace, stripe: Bytes64, key: Bytes64) returns (ghost r: Trace)
    requires acc[..] == Lanes(t)
    modifies acc
    ensures r == Accumulated(t, stripe, key) && acc[..] == Lanes(r)
  {
    AccumulateScalar(acc, stripe, key);
    r := Accumulated(t, stripe, key);
  }

  method ScrambleStep(acc: array<u64>, ghost t: Trace, key: Bytes64) returns (ghost r: Trace)
    requires acc[..] == Lanes(t)
    modifies acc
    ensures r == Scrambled(t, key) && acc[..] == Lanes(r)
  {
    ScrambleScalar(acc, key);
    r := Scrambled(t, key);
  }

  // ---- XXH3_hashLong_internal_loop ----

  lemma BlockCount(len: nat, blockLen: nat)
    requires len > 0 && blockLen > 0
    ensures var nbBlocks := (len - 1) / blockLen;
            nbBlocks * blockLen < len <= nbBlocks * blockLen + blockLen
  {
  }

  lemma NextBlock(n: nat, nbBlocks: nat, blockLen: nat)
    requires n < nbBlocks
    ensures (n + 1) * blockLen == n * blockLen + blockLen <= nbBlocks * blockLen
  {
    assert nbBlocks * blockLen == (n + 1) * blockLen + (nbBlocks - n - 1) * blockLen;
  }

  /** `t` is what the stripes before `start` lead to, and `start` begins a block. */
  ghost predicate AtBlock(secret: Secret, data: seq<u8>, t: Trace, start: nat) {
    && start % STRIPE_LEN == 0 && start < |data|
    && Core(t, 0) == Absorb(secret, START, data, start / STRIPE_LEN)
  }

  lemma StartsAtBlock(secret: Secret, data: seq<u8>)
    requires data != []
    ensures AtBlock(secret, data, Init, 0) && Lanes(Init) == INIT_ACC
  {
  }

  /** A run of stripes from the start of a block, and the scramble if it is a whole block. */
  lemma BlockStep(secret: Secret, data: seq<u8>, t: Trace, start: nat, n: nat)
    requires AtBlock(secret, data, t, start)
    requires start + n * STRIPE_LEN <= |data| && n <= StripesPerBlock(secret)
    ensures Absorb(secret, START, data, start / STRIPE_LEN + n) ==
            (var a := Run(secret, t, 0, data[start..], n);
             if n < StripesPerBlock(secret) then Core(a, n)
             else Core(Scrambled(a, Segment(secret, |secret| - STRIPE_LEN)), 0))
  {
    hide Absorb, Run;
    var done := start / STRIPE_LEN;
    assert start == done * STRIPE_LEN;
    RunIsAbsorb(secret, t, 0, data[start..], n);
    AbsorbSplit(secret, START, data, done, n);
  }

  method HashLongInternalLoop(acc: array<u64>, data: seq<u8>, secret: Secret)
    requires |data| > STRIPE_LEN && acc[..] == INIT_ACC
    modifies acc
    ensures acc[..] == Lanes(LongTrace(secret, data))
  {
    hide AtBlock, Lanes, LongTrace, Absorb;
    StartsAtBlock(secret, data);
    var nbStripesPerBlock := (|secret| - STRIPE_LEN) / CONSUME_RATE;
    var blockLen := STRIPE_LEN * nbStripesPerBlock;
    var nbBlocks := (|data| - 1) / blockLen;
    BlockCount(|data|, blockLen);
    ghost var t := Init;
    for n := 0 to nbBlocks
      invariant AtBlock(secret, data, t, n * blockLen) && acc[..] == Lanes(t)
    {
      NextBlock(n, nbBlocks, blockLen);
      t := Block(acc, t, data, secret, n * blockLen);
    }
    t := LastBlock(acc, t, data, secret, nbBlocks * blockLen);
  }

  method Block(acc: array<u64>, ghost t: Trace, data: seq<u8>, secret: Secret, start: nat) returns (ghost r: Trace)
    requires start + STRIPE_LEN * StripesPerBlock(secret) < |data|
    requires AtBlock(secret, data, t, start) && acc[..] == Lanes(t)
    modifies acc
    ensures AtBlock(secret, data, r, start + STRIPE_LEN * StripesPerBlock(secret)) && acc[..] == Lanes(r)
  {
    hide Lanes, Absorb, Run;
    var nbStripesPerBlock := (|secret| - STRIPE_LEN) / CONSUME_RATE;
    BlockStep(secret, data, t, start, nbStripesPerBlock);
    r := Accumulate(acc, t, data[start..], secret, 0, nbStripesPerBlock);
    r := ScrambleStep(acc, r, Segment(secret, |secret| - STRIPE_LEN));
  }

  lemma StripesLeft(start: nat, len: nat)
    requires start % STRIPE_LEN == 0 && start < len
    ensures start / STRIPE_LEN + (len - 1 - start) / STRIPE_LEN == (len - 1) / STRIPE_LEN
  {
    var s := start / STRIPE_LEN;
    assert start == STRIPE_LEN * s && len - 1 == STRIPE_LEN * s + (len - 1 - start);
  }

  /** The last partial block, which begins at `start`, and the last stripe. */
  method LastBlock(acc: array<u64>, ghost t: Trace, data: seq<u8>, secret: Secret, start: nat) returns (ghost r: Trace)
    requires STRIPE_LEN < |data| <= start + STRIPE_LEN * StripesPerBlock(secret)
    requires AtBlock(secret, data, t, start) && acc[..] == Lanes(t)
    modifies acc
    ensures r == LongTrace(secret, data) && acc[..] == Lanes(r)
  {
    hide Lanes, Absorb, Run;
    var nbStripes := (|data| - 1 - start) / STRIPE_LEN;
    StripesLeft(start, |data|);
    BlockStep(secret, data, t, start, nbStripes);
    r := Accumulate(acc, t, data[start..], secret, 0, nbStripes);
    r := AccumulateStep(acc, r, Segment(data, |data| - STRIPE_LEN),
                        Segment(secret, |secret| - STRIPE_LEN - LASTACC_START));
  }

  // ---- one-shot entry points ----

  /** How a hash is keyed: XXH3_64bits, XXH3_64bits_withSecret, XXH3_64bits_withSeed. */
  datatype Mode = Default | WithSecret(secret: Secret) | WithSeed(seed: u64)

  /** A hash value; for inputs of at most 240 bytes, what the short-input function is given. */
  datatype Hash = Value(value: u64) | ShortHash(data: seq<u8>, secret: seq<u8>, seed: u64)

  /** The secret that keys long inputs. */
  function LongSecret(kSecret: DefaultSecret, m: Mode): Secret {
    match m
    case Default => kSecret
    case WithSecret(s) => s
    case WithSeed(seed) => if seed == 0 then kSecret else DeriveSecret(kSecret, seed)
  }

  function OneShot(kSecret: DefaultSecret, m: Mode, data: seq<u8>): Hash {
    if |data| > MIDSIZE_MAX then Value(LongHash(LongSecret(kSecret, m), data))
    else match m
      case Default => ShortHash(data, kSecret, 0)
      case WithSecret(s) => ShortHash(data, s, 0)
      case WithSeed(seed) => ShortHash(data, kSecret, seed)
  }

  /** XXH3_hashLong_64b_internal */
  method HashLong64(data: seq<u8>, secret: Secret) returns (h: u64)
    requires |data| > STRIPE_LEN
    ensures h == LongHash(secret, data)
  {
    var acc := new u64[ACC_NB](i requires 0 <= i < ACC_NB => INIT_ACC[i]);
    assert acc[..] == INIT_ACC;
    HashLongInternalLoop(acc, data, secret);
    h := MergeAccsInMemory(acc, Segment(secret, MERGEACCS_START), (|data| * PRIME64_1) % TWO_TO_THE_64);
  }

  /** XXH3_64bits_internal with the long hash of the given mode. `data` has a size_t length. */
  method Hash64(kSecret: DefaultSecret, m: Mode, data: seq<u8>) returns (h: Hash)
    requires |data| < TWO_TO_THE_64
    ensures h == OneShot(kSecret, m, data)
  {
    var secret: Secret := if m.WithSecret? then m.secret else kSecret;
    var seed: u64 := if m.WithSeed? then m.seed else 0;
    if |data| <= MIDSIZE_MAX {
      return ShortHash(data, secret, seed);
    }
    if seed != 0 {
      var customSecret := new u8[SECRET_DEFAULT_SIZE];
      InitCustomSecretScalar(customSecret, kSecret, seed);
      secret := customSecret[..];
    }
    var value := HashLong64(data, secret);
    h := Value(value);
  }
}
