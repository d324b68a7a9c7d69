/**
 * The XXH3 streaming state: resets, updates and digests. Whatever the cuts, a digest is
 * the one-call hash of everything fed since the last reset.
 */
module Xxh3Stream {
  import opened Words
  import opened Xxh3Lanes
  import opened Xxh3

  const BUFFER_SIZE: nat := 256
  const BUFFER_STRIPES: nat := BUFFER_SIZE / STRIPE_LEN

  datatype Status = Ok | Error

  // ---- what the accumulators stand for ----

  /** `c` is what the first `n` stripes of `fed` lead to. */
  ghost predicate Absorbed(secret: Secret, c: Core, fed: seq<u8>, n: nat) {
    n * STRIPE_LEN <= |fed| && c == Absorb(secret, START, fed, n)
  }

  /** The steps for all stripes that are followed by at least one more byte. */
  ghost function AllButLast(secret: Secret, fed: seq<u8>): Trace {
    if fed == [] then Init else Absorb(secret, START, fed, (|fed| - 1) / STRIPE_LEN).trace
  }

  /** With fewer than a stripe held, all stripes but the last have been absorbed. */
  lemma AbsorbedIsAll(secret: Secret, c: Core, fed: seq<u8>, n: nat, held: nat)
    requires Absorbed(secret, c, fed, n) && |fed| == n * STRIPE_LEN + held && 0 < held < STRIPE_LEN
    ensures c.trace == AllButLast(secret, fed)
  {
    NoStripeHeld(n, held);
  }

  lemma AbsorbedLonger(secret: Secret, c: Core, fed: seq<u8>, n: nat, more: seq<u8>)
    requires Absorbed(secret, c, fed, n)
    ensures Absorbed(secret, c, fed + more, n)
  {
    AbsorbAgree(secret, START, fed, fed + more, n);
  }

  /** Absorbing `m` more stripes, which `chunk` begins with. */
  lemma AbsorbedNext(secret: Secret, c: Core, fed: seq<u8>, n: nat, chunk: seq<u8>, m: nat)
    requires Absorbed(secret, c, fed, n)
    requires (n + m) * STRIPE_LEN <= |fed| && m * STRIPE_LEN <= |chunk|
    requires chunk[..m * STRIPE_LEN] == fed[n * STRIPE_LEN..][..m * STRIPE_LEN]
    ensures c.pos < StripesPerBlock(secret)
    ensures Absorbed(secret, Absorb(secret, c, chunk, m), fed, n + m)
  {
    AbsorbSplit(secret, START, fed, n, m);
    AbsorbAgree(secret, c, chunk, fed[n * STRIPE_LEN..], m);
  }

  /** A run to the end of the block, the scramble, and a run into the next block. */
  lemma CrossBlock(secret: Secret, t: Trace, pos: nat, data: seq<u8>, after: nat)
    requires pos < StripesPerBlock(secret) && after < StripesPerBlock(secret)
    requires (StripesPerBlock(secret) - pos + after) * STRIPE_LEN <= |data|
    ensures (var toEnd := StripesPerBlock(secret) - pos;
             var a := Scrambled(Run(secret, t, pos, data, toEnd), Segment(secret, |secret| - STRIPE_LEN));
             Absorb(secret, Core(t, pos), data, toEnd + after)
             == Core(Run(secret, a, 0, data[toEnd * STRIPE_LEN..], after), after))
  {
    var toEnd := StripesPerBlock(secret) - pos;
    AbsorbSplit(secret, Core(t, pos), data, toEnd, after);
    RunIsAbsorb(secret, t, pos, data, toEnd);
    var a := Scrambled(Run(secret, t, pos, data, toEnd), Segment(secret, |secret| - STRIPE_LEN));
    RunIsAbsorb(secret, a, 0, data[toEnd * STRIPE_LEN..], after);
  }

  /** XXH3_consumeStripes: at most one block end is passed. */
  method ConsumeStripes(acc: array<u64>, ghost t: Trace, nbStripesSoFar: nat, nbStripesPerBlock: nat,
                        data: seq<u8>, nbStripes: nat, secret: Secret, secretLimit: nat)
    returns (ghost r: Trace, soFar: nat)
    requires nbStripesPerBlock == StripesPerBlock(secret) && secretLimit == |secret| - STRIPE_LEN
    requires nbStripesSoFar < nbStripesPerBlock && nbStripes <= nbStripesPerBlock
    requires nbStripes * STRIPE_LEN <= |data|
    requires acc[..] == Lanes(t)
    modifies acc
    ensures Core(r, soFar) == Absorb(secret, Core(t, nbStripesSoFar), data, nbStripes)
    ensures acc[..] == Lanes(r)
  {
    hide Lanes, Absorb, Run, Segment;
    if nbStripesPerBlock - nbStripesSoFar <= nbStripes {
      var toEnd := nbStripesPerBlock - nbStripesSoFar;
      var after := nbStripes - toEnd;
      CrossBlock(secret, t, nbStripesSoFar, data, after);
      r := Accumulate(acc, t, data, secret, nbStripesSoFar, toEnd);
      r := ScrambleStep(acc, r, Segment(secret, secretLimit));
      r := Accumulate(acc, r, data[toEnd * STRIPE_LEN..], secret, 0, after);
      soFar := after;
    } else {
      RunIsAbsorb(secret, t, nbStripesSoFar, data, nbStripes);
      r := Accumulate(acc, t, data, secret, nbStripesSoFar, nbStripes);
      soFar := nbStripesSoFar + nbStripes;
    }
  }

  method CopyLanes(acc: array<u64>) returns (local: array<u64>)
    requires acc.Length == ACC_NB
    ensures fresh(local) && local[..] == acc[..]
  {
    local := new u64[ACC_NB];
    forall i | 0 <= i < ACC_NB {
      local[i] := acc[i];
    }
  }

  // ---- what the buffer stands for ----

  /** The bytes held at the front and, when they are less than a stripe, those before them at the back. */
  ghost predicate Buffered(buffer: seq<u8>, held: nat, fed: seq<u8>) {
    && |buffer| == BUFFER_SIZE && held <= BUFFER_SIZE && held <= |fed|
    && buffer[..held] == fed[|fed| - held..]
    && (held < STRIPE_LEN && held < |fed| ==>
        |fed| >= STRIPE_LEN
        && buffer[BUFFER_SIZE - (STRIPE_LEN - held)..] == fed[|fed| - STRIPE_LEN..|fed| - held])
  }

  lemma BufferedAppend(buffer: seq<u8>, held: nat, before: seq<u8>, data: seq<u8>, after: seq<u8>)
    requires Buffered(buffer, held, before) && held + |data| <= BUFFER_SIZE
    requires after == buffer[..held] + data + buffer[held + |data|..]
    ensures Buffered(after, held + |data|, before + data)
  {
    var fed := before + data;
    assert fed[|fed| - held - |data|..] == before[|before| - held..] + data;
    if held + |data| < STRIPE_LEN && held < |before| {
      TailAfterAppend(buffer, held, before, data, after);
    }
  }

  /** The stale end of the buffer still completes the last stripe, with fewer bytes. */
  lemma TailAfterAppend(buffer: seq<u8>, held: nat, before: seq<u8>, data: seq<u8>, after: seq<u8>)
    requires Buffered(buffer, held, before) && held + |data| < STRIPE_LEN && held < |before|
    requires after == buffer[..held] + data + buffer[held + |data|..]
    ensures var fed := before + data;
            |fed| >= STRIPE_LEN
            && after[BUFFER_SIZE - (STRIPE_LEN - held - |data|)..] == fed[|fed| - STRIPE_LEN..|fed| - held - |data|]
  {
    var fed, d := before + data, |data|;
    var from := BUFFER_SIZE - (STRIPE_LEN - held);
    assert after[from + d..] == buffer[from..][d..];
    assert fed[|fed| - STRIPE_LEN..|before| - held] == before[|before| - STRIPE_LEN..|before| - held][d..];
  }

  /** A rest of less than a stripe leaves the end of the last stripe in place. */
  lemma BufferedRest(buffer: seq<u8>, rest: seq<u8>, fed: seq<u8>, after: seq<u8>)
    requires |buffer| == BUFFER_SIZE && 0 < |rest| <= BUFFER_SIZE && |fed| >= |rest| + STRIPE_LEN
    requires rest == fed[|fed| - |rest|..]
    requires buffer[BUFFER_SIZE - STRIPE_LEN..] == fed[|fed| - |rest| - STRIPE_LEN..|fed| - |rest|]
    requires after == rest + buffer[|rest|..]
    ensures Buffered(after, |rest|, fed)
  {
    if |rest| < STRIPE_LEN {
      assert after[BUFFER_SIZE - (STRIPE_LEN - |rest|)..] == buffer[BUFFER_SIZE - STRIPE_LEN..][|rest|..];
      assert fed[|fed| - STRIPE_LEN..|fed| - |rest|]
          == fed[|fed| - |rest| - STRIPE_LEN..|fed| - |rest|][|rest|..];
    }
  }

  /** The last 64 bytes are at the end of what is held, or at the back and the front of the buffer. */
  lemma LastStripe(buffer: seq<u8>, held: nat, fed: seq<u8>)
    requires Buffered(buffer, held, fed) && |fed| >= STRIPE_LEN
    ensures held <= BUFFER_SIZE == |buffer|
    ensures Segment(fed, |fed| - STRIPE_LEN) ==
            if held >= STRIPE_LEN then buffer[held - STRIPE_LEN..held]
            else buffer[BUFFER_SIZE - (STRIPE_LEN - held)..] + buffer[..held]
  {
    if held >= STRIPE_LEN {
      assert buffer[held - STRIPE_LEN..held] == buffer[..held][held - STRIPE_LEN..];
    }
  }

  lemma HeldIsRest(buffer: seq<u8>, held: nat, fed: seq<u8>, from: nat)
    requires Buffered(buffer, held, fed) && |fed| == from + held
    ensures held <= |buffer| == BUFFER_SIZE && buffer[..held] == fed[from..]
  {
  }

  lemma HeldThenData(buffer: seq<u8>, held: nat, before: seq<u8>, data: seq<u8>, from: nat)
    requires Buffered(buffer, held, before) && |before| == from + held
    ensures held <= |buffer| == BUFFER_SIZE && buffer[..held] + data == (before + data)[from..]
  {
  }

  lemma StripesInAll(stripes: nat, held: nat)
    requires held > 0
    ensures (stripes * STRIPE_LEN + held - 1) / STRIPE_LEN == stripes + (held - 1) / STRIPE_LEN
  {
  }

  lemma NoStripeHeld(stripes: nat, held: nat)
    requires 0 < held < STRIPE_LEN
    ensures (stripes * STRIPE_LEN + held - 1) / STRIPE_LEN == stripes
  {
  }

  /** What follows four more stripes, and the last of the four. */
  lemma FourStripesOn(fed: seq<u8>, n: nat, rest: seq<u8>)
    requires n * STRIPE_LEN + BUFFER_SIZE <= |fed| && rest == fed[n * STRIPE_LEN..]
    ensures fed[(n + BUFFER_STRIPES) * STRIPE_LEN..] == rest[BUFFER_SIZE..]
    ensures fed[(n + BUFFER_STRIPES - 1) * STRIPE_LEN..(n + BUFFER_STRIPES) * STRIPE_LEN]
         == rest[BUFFER_SIZE - STRIPE_LEN..BUFFER_SIZE]
  {
  }

  function SeedOf(m: Mode): u64 {
    if m.WithSeed? then m.seed else 0
  }

  lemma SameKey(kSecret: DefaultSecret, m: Mode, data: seq<u8>)
    ensures (var seed := SeedOf(m);
             OneShot(kSecret, if seed != 0 then WithSeed(seed) else WithSecret(LongSecret(kSecret, m)), data)
             == OneShot(kSecret, m, data))
  {
  }

  class State {
    const kSecret: DefaultSecret
    const acc: array<u64>
    const customSecret: array<u8>
    const buffer: array<u8>
    var bufferedSize: u32
    var nbStripesSoFar: nat
    var totalLen: u64
    var nbStripesPerBlock: nat
    var secretLimit: nat
    var seed: u64
    var extSecret: Option<seq<u8>>

    /** What the digest has to account for: the mode of the last reset and the secret of
        that mode; the bytes fed since; and how many of their stripes the accumulators have
        taken in, by which steps. */
    ghost var mode: Mode
    ghost var key: Secret
    ghost var fed: seq<u8>
    ghost var absorbed: nat
    ghost var trace: Trace

    ghost predicate Shaped() {
      && acc.Length == ACC_NB && buffer.Length == BUFFER_SIZE && customSecret.Length == SECRET_DEFAULT_SIZE
      && buffer != customSecret
    }

    /** Holds from creation on: a cached secret is the one of the recorded seed. */
    ghost predicate Valid()
      reads this`seed, customSecret
    {
      Shaped() && (seed != 0 ==> customSecret[..] == DeriveSecret(kSecret, seed))
    }

    /** The key is the secret of the mode, and the seed is that of the mode. */
    ghost predicate Moded()
      reads this`seed, this`mode, this`key
    {
      key == LongSecret(kSecret, mode) && seed == SeedOf(mode)
    }

    /** The state points to the key, and the limits are those of the key. */
    ghost predicate Keyed()
      reads this`seed, this`extSecret, this`key, this`secretLimit, this`nbStripesPerBlock, customSecret
    {
      && Shaped()
      && extSecret == (if seed == 0 then Some(key) else None)
      && (seed != 0 ==> customSecret[..] == key)
      && secretLimit == |key| - STRIPE_LEN && nbStripesPerBlock == StripesPerBlock(key)
    }

    /** The lanes in memory are what the recorded steps leave. */
    ghost predicate InLanes()
      reads this`trace, acc
    {
      acc[..] == Lanes(trace)
    }

    /** The accumulators have taken in the first `absorbed` stripes. */
    ghost predicate Consuming()
      reads this`seed, this`extSecret, this`key, this`secretLimit, this`nbStripesPerBlock, customSecret
      reads this`trace, this`nbStripesSoFar, this`fed, this`absorbed, acc
    {
      Keyed() && InLanes() && Absorbed(key, Core(trace, nbStripesSoFar), fed, absorbed)
    }

    ghost predicate Counted()
      reads this`totalLen, this`fed
    {
      totalLen == |fed| % TWO_TO_THE_64
    }

    /** What is held completes what has been absorbed, and something is held once anything was fed. */
    ghost predicate Holding()
      reads this`fed, this`absorbed, this`bufferedSize, buffer
    {
      && |fed| == absorbed * STRIPE_LEN + bufferedSize
      && (fed != [] ==> bufferedSize > 0) && (absorbed > 0 ==> |fed| > BUFFER_SIZE)
      && Buffered(buffer[..], bufferedSize, fed)
    }

    /** Holds from a successful reset on. */
    ghost predicate Ready()
      reads this, customSecret, buffer, acc
    {
      Valid() && Moded() && Consuming() && Counted() && Holding()
    }

    /** XXH3_createState: only the seed is set; everything else is whatever the memory held. */
    constructor (kSecret: DefaultSecret, held: u32)
      ensures Valid() && seed == 0 && this.kSecret == kSecret && fresh(buffer) && fresh(customSecret) && fresh(acc)
    {
      this.kSecret := kSecret;
      acc := new u64[ACC_NB];
      bufferedSize := held;
      nbStripesSoFar := *;
      totalLen := *;
      nbStripesPerBlock := *;
      secretLimit := *;
      extSecret := *;
      buffer := new u8[BUFFER_SIZE];
      customSecret := new u8[SECRET_DEFAULT_SIZE];
      seed := 0;
    }

    // ---- resets ----

    method ResetInternal(seed: u64, secret: Option<seq<u8>>, secretSize: u64)
      requires acc.Length == ACC_NB
      modifies this, acc
      ensures bufferedSize == 0 && nbStripesSoFar == 0 && totalLen == 0
      ensures acc[..] == INIT_ACC && this.seed == seed && extSecret == secret
      ensures secretLimit == (secretSize - STRIPE_LEN) % TWO_TO_THE_64
      ensures nbStripesPerBlock == secretLimit / CONSUME_RATE
      ensures fed == [] && absorbed == 0 && trace == Init
    {
      bufferedSize, nbStripesSoFar, totalLen := 0, 0, 0;
      forall i | 0 <= i < ACC_NB {
        acc[i] := INIT_ACC[i];
      }
      this.seed := seed;
      extSecret := secret;
      secretLimit := (secretSize - STRIPE_LEN) % TWO_TO_THE_64;
      nbStripesPerBlock := secretLimit / CONSUME_RATE;
      fed, absorbed, trace := [], 0, Init;
    }

    method Reset()
      requires Valid()
      modifies this, acc
      ensures Ready() && mode == Default && fed == []
    {
      ResetInternal(0, Some(kSecret), SECRET_DEFAULT_SIZE);
      mode, key := Default, kSecret;
    }

    /** A missing or a short secret is reported, after the state has been overwritten. */
    method ResetWithSecret(secret: Option<seq<u8>>, secretSize: u64) returns (e: Status)
      requires Valid()
      requires secret.Some? ==> |secret.value| == secretSize
      modifies this, acc
      ensures Valid() && fed == []
      ensures e == Ok <==> secret.Some? && secretSize >= SECRET_SIZE_MIN
      ensures e == Ok ==> Ready() && mode == WithSecret(secret.value)
    {
      ResetInternal(0, secret, secretSize);
      if secret == None || secretSize < SECRET_SIZE_MIN {
        return Error;
      }
      mode, key := WithSecret(secret.value), secret.value;
      return Ok;
    }

    /** The secret is derived only when the seed differs from the recorded one. */
    method ResetWithSeed(seed: u64)
      requires Valid()
      modifies this, customSecret, acc
      ensures Ready() && mode == WithSeed(seed) && fed == []
    {
      if seed == 0 {
        Reset();
        mode := WithSeed(0);
      } else {
        if seed != this.seed {
          InitCustomSecretScalar(customSecret, kSecret, seed);
        }
        ResetToSeed(seed, customSecret[..]);
      }
    }

    method ResetToSeed(seed: u64, ghost derived: DefaultSecret)
      requires Shaped() && seed != 0 && customSecret[..] == derived == DeriveSecret(kSecret, seed)
      modifies this, acc
      ensures Ready() && mode == WithSeed(seed) && fed == []
    {
      ResetInternal(seed, None, SECRET_DEFAULT_SIZE);
      mode, key := WithSeed(seed), derived;
    }

    // ---- update ----

    function SecretInUse(): (s: seq<u8>)
      requires Keyed()
      reads this`seed, this`extSecret, this`key, this`secretLimit, this`nbStripesPerBlock, customSecret
      ensures s == key
    {
      if extSecret.None? then customSecret[..] else extSecret.value
    }

    /** The four stripes of one buffer, taken from `chunk`. */
    method TakeStripes(chunk: seq<u8>)
      requires Consuming()
      requires |chunk| >= BUFFER_SIZE && |fed| >= absorbed * STRIPE_LEN + BUFFER_SIZE
      requires chunk[..BUFFER_SIZE] == fed[absorbed * STRIPE_LEN..][..BUFFER_SIZE]
      modifies this`trace, this`nbStripesSoFar, this`absorbed, acc
      ensures Consuming() && absorbed == old(absorbed) + BUFFER_STRIPES
    {
      hide Lanes, Absorb;
      var nbStripes := buffer.Length / STRIPE_LEN;
      AbsorbedNext(key, Core(trace, nbStripesSoFar), fed, absorbed, chunk, nbStripes);
      trace, nbStripesSoFar := ConsumeStripes(acc, trace, nbStripesSoFar, nbStripesPerBlock, chunk, nbStripes,
                                              SecretInUse(), secretLimit);
      absorbed := absorbed + nbStripes;
    }

    /** The back of the buffer holds the last stripe taken. */
    ghost predicate TailKept()
      requires Consuming()
      reads this, customSecret, buffer, acc
    {
      absorbed >= BUFFER_STRIPES
      && buffer[BUFFER_SIZE - STRIPE_LEN..] == fed[(absorbed - 1) * STRIPE_LEN..absorbed * STRIPE_LEN]
    }

    /** Completes the buffer, takes its stripes, and returns how much of `input` that used. */
    method FillAndTake(input: seq<u8>) returns (p: nat)
      requires Consuming() && 0 < bufferedSize <= BUFFER_SIZE < bufferedSize + |input|
      requires |fed| == absorbed * STRIPE_LEN + bufferedSize + |input|
      requires buffer[..bufferedSize] + input == fed[absorbed * STRIPE_LEN..]
      modifies this`trace, this`nbStripesSoFar, this`absorbed, this`bufferedSize, acc, buffer
      ensures Consuming() && TailKept() && bufferedSize == 0
      ensures p < |input| && |fed| == absorbed * STRIPE_LEN + |input| - p
      ensures input[p..] == fed[absorbed * STRIPE_LEN..]
    {
      hide Lanes, Absorbed, StripesPerBlock;
      p := BUFFER_SIZE - bufferedSize;
      ghost var rest := fed[absorbed * STRIPE_LEN..];
      FourStripesOn(fed, absorbed, rest);
      CopyInto(buffer, bufferedSize, input[..p]);
      assert buffer[..] == rest[..BUFFER_SIZE];
      assert input[p..] == rest[BUFFER_SIZE..];
      TakeStripes(buffer[..]);
      bufferedSize := 0;
    }

    /** Takes the input by whole buffers while more than one is left; keeps the stripe before the rest. */
    method TakeDirect(input: seq<u8>, start: nat) returns (p: nat)
      requires Consuming() && start < |input| && |fed| == absorbed * STRIPE_LEN + |input| - start
      requires input[start..] == fed[absorbed * STRIPE_LEN..]
      requires start + BUFFER_SIZE < |input| || TailKept()
      modifies this`trace, this`nbStripesSoFar, this`absorbed, acc, buffer
      ensures Consuming() && TailKept() && start <= p < |input| <= p + BUFFER_SIZE
      ensures |fed| == absorbed * STRIPE_LEN + |input| - p && input[p..] == fed[absorbed * STRIPE_LEN..]
    {
      p := start;
      if p + BUFFER_SIZE < |input| {
        var limit := |input| - BUFFER_SIZE;
        p := TakeOne(input, p);
        while p < limit
          invariant Consuming() && start + BUFFER_SIZE <= p < |input| && absorbed >= BUFFER_STRIPES
          invariant |fed| == absorbed * STRIPE_LEN + |input| - p && input[p..] == fed[absorbed * STRIPE_LEN..]
          invariant input[p - STRIPE_LEN..p] == fed[(absorbed - 1) * STRIPE_LEN..absorbed * STRIPE_LEN]
        {
          p := TakeOne(input, p);
        }
        CopyInto(buffer, BUFFER_SIZE - STRIPE_LEN, input[p - STRIPE_LEN..p]);
      }
    }

    method TakeOne(input: seq<u8>, p: nat) returns (q: nat)
      requires Consuming() && p + BUFFER_SIZE < |input| && |fed| == absorbed * STRIPE_LEN + |input| - p
      requires input[p..] == fed[absorbed * STRIPE_LEN..]
      modifies this`trace, this`nbStripesSoFar, this`absorbed, acc
      ensures Consuming() && q == p + BUFFER_SIZE && absorbed >= BUFFER_STRIPES
      ensures |fed| == absorbed * STRIPE_LEN + |input| - q && input[q..] == fed[absorbed * STRIPE_LEN..]
      ensures input[q - STRIPE_LEN..q] == fed[(absorbed - 1) * STRIPE_LEN..absorbed * STRIPE_LEN]
    {
      q := p + BUFFER_SIZE;
      ghost var rest := fed[absorbed * STRIPE_LEN..];
      FourStripesOn(fed, absorbed, rest);
      TakeStripes(input[p..]);
      assert input[q..] == rest[BUFFER_SIZE..];
      assert input[q - STRIPE_LEN..q] == rest[BUFFER_SIZE - STRIPE_LEN..BUFFER_SIZE];
    }

    method BufferRest(rest: seq<u8>)
      requires Consuming() && TailKept() && 0 < |rest| <= BUFFER_SIZE
      requires |fed| == absorbed * STRIPE_LEN + |rest| && rest == fed[absorbed * STRIPE_LEN..]
      modifies this`bufferedSize, buffer
      ensures Holding()
    {
      ghost var was := buffer[..];
      CopyInto(buffer, 0, rest);
      bufferedSize := |rest|;
      BufferedRest(was, rest, fed, buffer[..]);
    }

    /** XXH3_update. No input pointer is an error and changes nothing. */
    method Update(input: Option<seq<u8>>) returns (e: Status)
      requires Ready()
      requires input.Some? ==> |input.value| <= OBJECT_MAX
      modifies this`totalLen, this`fed, this`trace, this`nbStripesSoFar, this`absorbed, this`bufferedSize, acc, buffer
      ensures Ready()
      ensures e == Ok <==> input.Some?
      ensures fed == old(fed) + (if input.Some? then input.value else [])
    {
      hide Lanes, DeriveSecret, Absorb, Absorbed, Buffered, LongSecret, StripesPerBlock, SeedOf;
      if input.None? { return Error; }
      WrappedSum(|fed|, |input.value|);
      totalLen := (totalLen + |input.value|) % TWO_TO_THE_64;
      Feed(input.value);
      return Ok;
    }

    method Feed(data: seq<u8>)
      requires Consuming() && Holding() && |data| <= OBJECT_MAX
      modifies this`fed, this`trace, this`nbStripesSoFar, this`absorbed, this`bufferedSize, acc, buffer
      ensures Consuming() && Holding() && fed == old(fed) + data
    {
      hide Absorbed, Buffered, Lanes;
      AbsorbedLonger(key, Core(trace, nbStripesSoFar), fed, absorbed, data);
      HeldThenData(buffer[..], bufferedSize, fed, data, absorbed * STRIPE_LEN);
      ghost var before := fed;
      fed := fed + data;
      if (bufferedSize + |data|) % TWO_TO_THE_64 <= BUFFER_SIZE {
        Append(before, data);
      } else {
        assert buffer[..bufferedSize] == buffer[..][..bufferedSize];
        Take(data);
      }
    }

    /** Everything still fits the buffer. */
    method Append(ghost before: seq<u8>, data: seq<u8>)
      requires Consuming() && fed == before + data && |fed| == absorbed * STRIPE_LEN + bufferedSize + |data|
      requires (before != [] ==> bufferedSize > 0) && (absorbed > 0 ==> |fed| > BUFFER_SIZE)
      requires bufferedSize + |data| <= BUFFER_SIZE
      requires Buffered(buffer[..], bufferedSize, before)
      modifies this`bufferedSize, buffer
      ensures Holding()
    {
      hide Buffered;
      ghost var was := buffer[..];
      CopyInto(buffer, bufferedSize, data);
      BufferedAppend(was, bufferedSize, before, data, buffer[..]);
      bufferedSize := bufferedSize + |data|;
    }

    /** More than the buffer can hold: all but the last 1 to 256 bytes is taken in. */
    method Take(data: seq<u8>)
      requires Consuming() && bufferedSize <= BUFFER_SIZE < bufferedSize + |data|
      requires |fed| == absorbed * STRIPE_LEN + bufferedSize + |data|
      requires buffer[..bufferedSize] + data == fed[absorbed * STRIPE_LEN..]
      modifies this`trace, this`nbStripesSoFar, this`absorbed, this`bufferedSize, acc, buffer
      ensures Consuming() && Holding()
    {
      var p := 0;
      if bufferedSize != 0 {
        p := FillAndTake(data);
      }
      p := TakeDirect(data, p);
      BufferRest(data[p..]);
    }

    // ---- digest ----

    /** XXH3_digest_long works on a copy of the accumulators, so the state is as before. */
    method DigestLong(secret: Secret) returns (a: Acc)
      requires Consuming() && Holding() && |fed| > MIDSIZE_MAX && secret == key
      ensures a == Lanes(LongTrace(secret, fed))
    {
      hide Lanes, Absorb, Buffered;
      var local := CopyLanes(acc);
      ghost var t := DigestAllButLast(local, secret);
      var lastStripe := HeldLastStripe();
      t := AccumulateStep(local, t, lastStripe, Segment(secret, secretLimit - LASTACC_START));
      a := local[..];
    }

    /** The last stripe may have to be put together from both ends of the buffer. */
    method HeldLastStripe() returns (lastStripe: Bytes64)
      requires Holding() && buffer.Length == BUFFER_SIZE && |fed| > MIDSIZE_MAX
      ensures lastStripe == Segment(fed, |fed| - STRIPE_LEN)
    {
      hide Buffered, Segment;
      var bytes := buffer[..];
      LastStripe(bytes, bufferedSize, fed);
      if bufferedSize >= STRIPE_LEN {
        lastStripe := bytes[bufferedSize - STRIPE_LEN..bufferedSize];
      } else {
        lastStripe := bytes[BUFFER_SIZE - (STRIPE_LEN - bufferedSize)..] + bytes[..bufferedSize];
      }
    }

    /** All stripes but the last, which end before it in the buffer or were taken in already. */
    method DigestAllButLast(local: array<u64>, secret: Secret) returns (ghost t: Trace)
      requires Consuming() && Holding() && |fed| > MIDSIZE_MAX && secret == key
      requires local[..] == Lanes(trace)
      modifies local
      ensures local[..] == Lanes(t)
      ensures t == AllButLast(secret, fed)
    {
      hide Lanes, Absorb, AllButLast, Buffered, Absorbed, StripesPerBlock, Keyed;
      if bufferedSize < STRIPE_LEN {
        AbsorbedIsAll(secret, Core(trace, nbStripesSoFar), fed, absorbed, bufferedSize);
        return trace;
      }
      t := DigestHeld(local, secret);
    }

    /** The whole stripes held that are followed by at least one more byte. */
    method DigestHeld(local: array<u64>, secret: Secret) returns (ghost t: Trace)
      requires Consuming() && Holding() && bufferedSize >= STRIPE_LEN && secret == key
      requires local[..] == Lanes(trace)
      modifies local
      ensures local[..] == Lanes(t)
      ensures t == AllButLast(secret, fed)
    {
      hide Lanes, Absorb, Buffered;
      var nbStripes := (bufferedSize - 1) / STRIPE_LEN;
      StripesInAll(absorbed, bufferedSize);
      HeldIsRest(buffer[..], bufferedSize, fed, absorbed * STRIPE_LEN);
      var held := buffer[..][..bufferedSize];
      AbsorbedNext(secret, Core(trace, nbStripesSoFar), fed, absorbed, held, nbStripes);
      var soFar;
      t, soFar := ConsumeStripes(local, trace, nbStripesSoFar, nbStripesPerBlock, held, nbStripes, secret, secretLimit);
    }

    /** XXH3_64bits_digest: the one-call hash, for every length that call can be given. */
    method Digest() returns (h: Hash)
      requires Ready()
      ensures |fed| < TWO_TO_THE_64 ==> h == OneShot(kSecret, mode, fed)
    {
      hide LongHash, DeriveSecret, Lanes, LongTrace;
      var secret := SecretInUse();
      if totalLen > MIDSIZE_MAX {
        h := DigestMerged(secret);
      } else {
        h := DigestShort(secret);
      }
    }

    method DigestMerged(secret: Secret) returns (h: Hash)
      requires Consuming() && Holding() && Counted() && totalLen > MIDSIZE_MAX && secret == key
      ensures |fed| > MIDSIZE_MAX && (|fed| < TWO_TO_THE_64 ==> h == Value(LongHash(secret, fed)))
    {
      hide Lanes, LongTrace, MergeAccs, Absorb;
      var a := DigestLong(secret);
      h := Value(MergeAccs(a, Segment(secret, MERGEACCS_START), (totalLen * PRIME64_1) % TWO_TO_THE_64));
    }

    method DigestShort(secret: Secret) returns (h: Hash)
      requires Holding() && Counted() && Moded() && secret == key && totalLen <= MIDSIZE_MAX
      ensures |fed| < TWO_TO_THE_64 ==> h == OneShot(kSecret, mode, fed)
    {
      hide LongHash, DeriveSecret, Lanes, LongTrace;
      SameKey(kSecret, mode, fed);
      assert |fed| < TWO_TO_THE_64 ==> buffer[..totalLen] == fed;
      h := Hash64(kSecret, if seed != 0 then WithSeed(seed) else WithSecret(secret), buffer[..totalLen]);
    }
  }

  /** However the input is cut, and whatever the state was used for before. */
  method HashInPieces(s: State, m: Mode, pieces: seq<seq<u8>>) returns (h: Hash)
    requires s.Valid() && |Concat(pieces)| < TWO_TO_THE_64
    requires forall i :: 0 <= i < |pieces| ==> |pieces[i]| <= OBJECT_MAX
    requires m.WithSecret? ==> |m.secret| < TWO_TO_THE_64
    modifies s, s.acc, s.customSecret, s.buffer
    ensures h == OneShot(s.kSecret, m, Concat(pieces))
    ensures s.Valid()
  {
    hide Lanes, DeriveSecret, Absorbed, Buffered, LongSecret, StripesPerBlock, OneShot;
    ResetTo(s, m);
    for i := 0 to |pieces|
      invariant s.Ready() && s.mode == m && s.fed == Concat(pieces[..i])
    {
      assert pieces[..i + 1][..i] == pieces[..i];
      var _ := s.Update(Some(pieces[i]));
    }
    assert pieces[..|pieces|] == pieces;
    h := s.Digest();
  }

  method ResetTo(s: State, m: Mode)
    requires s.Valid() && (m.WithSecret? ==> |m.secret| < TWO_TO_THE_64)
    modifies s, s.acc, s.customSecret
    ensures s.Ready() && s.mode == m && s.fed == []
  {
    hide Lanes, DeriveSecret, Absorbed, Buffered, LongSecret, StripesPerBlock;
    match m
    case Default => s.Reset();
    case WithSecret(secret) => var _ := s.ResetWithSecret(Some(secret), |secret|);
    case WithSeed(seed) => s.ResetWithSeed(seed);
  }
}
