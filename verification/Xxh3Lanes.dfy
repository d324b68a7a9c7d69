/**
 * The mixing steps of XXH3 on its eight 64-bit lanes. Each step is a function that gives
 * every lane at once; the scalar loops and the 128-bit vector forms, which update the
 * accumulators in place, are proved to compute it.
 */
module Xxh3Lanes {
  import opened Words

  const STRIPE_LEN: nat := 64
  const ACC_NB: nat := 8
  const SECRET_DEFAULT_SIZE: nat := 192
  const PRIME32_1: u32 := 0x9E3779B1
  const PRIME32_2: u32 := 0x85EBCA77
  const PRIME32_3: u32 := 0xC2B2AE3D
  const PRIME64_1: u64 := 0x9E3779B185EBCA87
  const PRIME64_2: u64 := 0xC2B2AE3D27D4EB4F
  const PRIME64_3: u64 := 0x165667B19E3779F9
  const PRIME64_4: u64 := 0x85EBCA77C2B2AE63
  const PRIME64_5: u64 := 0x27D4EB2F165667C5

  type Acc = a: seq<u64> | |a| == 8 witness [0, 0, 0, 0, 0, 0, 0, 0]
  type Bytes64 = s: seq<u8> | |s| == 64 witness seq(64, _ => 0)
  type DefaultSecret = s: seq<u8> | |s| == 192 witness seq(192, _ => 0)

  const INIT_ACC: Acc :=
    [PRIME32_3, PRIME64_1, PRIME64_2, PRIME64_3, PRIME64_4, PRIME32_2, PRIME64_5, PRIME32_1]

  // ---- 64x64 to 128 bits, the portable form ----

  /** `cross` and `upper` fit 64 bits, and the two halves are the exact product. */
  function Mult64To128(lhs: u64, rhs: u64): (r: (u64, u64))
    ensures r.0 + r.1 * TWO_TO_THE_64 == lhs * rhs
  {
    var loLo: u64 := Mult32(Lo32(lhs), Lo32(rhs));
    var hiLo: u64 := Mult32(Hi32(lhs), Lo32(rhs));
    var loHi: u64 := Mult32(Lo32(lhs), Hi32(rhs));
    var hiHi: u64 := Mult32(Hi32(lhs), Hi32(rhs));
    var cross: u64 := Hi32(loLo) + Lo32(hiLo) + loHi;
    var upper: u64 := Hi32(hiLo) + Hi32(cross) + hiHi;
    var lower: u64 := Join(Lo32(loLo), Lo32(cross));
    SchoolProduct(Lo32(lhs), Hi32(lhs), Lo32(rhs), Hi32(rhs));
    (lower, upper)
  }

  /** XXH_mult32to64. Even with two more 32-bit terms the product stays below 2^64. */
  function Mult32(x: u32, y: u32): (p: u64)
    ensures p == x * y && p + 2 * (TWO_TO_THE_32 - 1) < TWO_TO_THE_64
  {
    assert x * y <= (TWO_TO_THE_32 - 1) * (TWO_TO_THE_32 - 1) by {
      MulMonotone(x, y, TWO_TO_THE_32 - 1);
    }
    x * y
  }

  lemma MulMonotone(x: nat, y: nat, m: nat)
    requires x <= m && y <= m
    ensures x * y <= m * m
  {
    assert x * y <= x * m <= m * m;
  }

  lemma SchoolProduct(a: nat, b: nat, c: nat, d: nat)
    ensures Square(a + b * TWO_TO_THE_32, c + d * TWO_TO_THE_32)
         == a * c + (b * c + a * d) * TWO_TO_THE_32 + b * d * TWO_TO_THE_64
  {
    var w := TWO_TO_THE_32;
    calc {
      (a + b * w) * (c + d * w);
      a * (c + d * w) + b * w * (c + d * w);
      a * c + a * (d * w) + b * w * c + b * w * (d * w);
      { assert a * (d * w) == a * d * w; assert b * w * c == b * c * w; assert b * w * (d * w) == b * d * (w * w); }
      a * c + a * d * w + b * c * w + b * d * (w * w);
    }
  }

  function Square(x: int, y: int): int { x * y }

  // ---- one stripe ----

  /** The lane that takes this lane's data: i ^ 1. */
  function Partner(i: nat): (j: nat)
    ensures i < ACC_NB ==> j < ACC_NB && j != i && j / 2 == i / 2
  {
    if i % 2 == 0 then i + 1 else i - 1
  }

  /** The eight words of a stripe. */
  function Load(b: Bytes64): Acc
  {
    seq(ACC_NB, i requires 0 <= i < ACC_NB => ReadLE64(b, 8 * i))
  }

  /** The low half times the high half of the keyed word. */
  function Product(data: u64, key: u64): u64 {
    Mult32(Lo32(Xor64(data, key)), Hi32(Xor64(data, key)))
  }

  function Products(data: Acc, key: Acc): Acc {
    seq(ACC_NB, i requires 0 <= i < ACC_NB => Product(data[i], key[i]))
  }

  /** Every lane gets its own product and its partner's data. */
  function AddLanes(acc: Acc, data: Acc, products: Acc): Acc {
    seq(ACC_NB, i requires 0 <= i < ACC_NB => Add(Add(acc[i], data[Partner(i)]), products[i]))
  }

  function Accumulate512(acc: Acc, stripe: Bytes64, key: Bytes64): Acc
  {
    AddLanes(acc, Load(stripe), Products(Load(stripe), Load(key)))
  }

  /** What lane `j` has received after `n` rounds of the scalar loop. */
  ghost function Partial(acc: Acc, data: Acc, products: Acc, n: nat, j: nat): u64
    requires j < ACC_NB
  {
    var a := if Partner(j) < n then Add(acc[j], data[Partner(j)]) else acc[j];
    if j < n then Add(a, products[j]) else a
  }

  lemma PartialNext(acc: Acc, data: Acc, products: Acc, i: nat, j: nat)
    requires i < ACC_NB && j < ACC_NB
    ensures Partial(acc, data, products, i + 1, j) ==
            if j == i then Add(Partial(acc, data, products, i, j), products[i])
            else if j == Partner(i) then Add(Partial(acc, data, products, i, j), data[i])
            else Partial(acc, data, products, i, j)
  {
    if j == Partner(i) < i {
      AddSwap(acc[j], data[i], products[j]);
    }
  }

  /** XXH3_accumulate_512_scalar: round i writes lanes i ^ 1 and i. */
  method AccumulateScalar(acc: array<u64>, stripe: Bytes64, key: Bytes64)
    requires acc.Length == ACC_NB
    modifies acc
    ensures acc[..] == Accumulate512(old(acc[..]), stripe, key)
  {
    ghost var was: Acc, data := acc[..], Load(stripe);
    ghost var products := Products(data, Load(key));
    for i := 0 to ACC_NB
      invariant forall j :: 0 <= j < ACC_NB ==> acc[j] == Partial(was, data, products, i, j)
    {
      forall j | 0 <= j < ACC_NB {
        PartialNext(was, data, products, i, j);
      }
      var dataVal := ReadLE64(stripe, 8 * i);
      var dataKey := Xor64(dataVal, ReadLE64(key, 8 * i));
      assert dataVal == data[i] && Mult32(Lo32(dataKey), Hi32(dataKey)) == products[i];
      var p := Partner(i);
      acc[p] := Add(acc[p], dataVal);
      acc[i] := Add(acc[i], Mult32(Lo32(dataKey), Hi32(dataKey)));
    }
  }

  // ---- 128-bit vectors ----

  /** Two 64-bit lanes, which are also four 32-bit ones. */
  datatype Vec = Vec(l0: u64, l1: u64) {
    function Dword(i: nat): u32
      requires i < 4
    {
      if i == 0 then Lo32(l0) else if i == 1 then Hi32(l0) else if i == 2 then Lo32(l1) else Hi32(l1)
    }
  }

  /** _mm_shuffle_epi32 with _MM_SHUFFLE(z, y, x, w). */
  function Shuffle32(v: Vec, z: nat, y: nat, x: nat, w: nat): Vec
    requires z < 4 && y < 4 && x < 4 && w < 4
  {
    Vec(Join(v.Dword(w), v.Dword(x)), Join(v.Dword(y), v.Dword(z)))
  }

  function XorVec(a: Vec, b: Vec): Vec { Vec(Xor64(a.l0, b.l0), Xor64(a.l1, b.l1)) }

  /** _mm_add_epi64 */
  function Add64(a: Vec, b: Vec): Vec {
    Vec(Add(a.l0, b.l0), Add(a.l1, b.l1))
  }

  /** _mm_mul_epu32: the even dwords. */
  function MulEven32(a: Vec, b: Vec): Vec {
    Vec(Mult32(a.Dword(0), b.Dword(0)), Mult32(a.Dword(2), b.Dword(2)))
  }

  /** _mm_slli_epi64 by 32 */
  function ShiftLeft32(a: Vec): Vec { Vec(Join(0, Lo32(a.l0)), Join(0, Lo32(a.l1))) }

  /** _mm_srli_epi64 by 47 */
  function ShiftRight47(a: Vec): Vec { Vec(a.l0 / 0x8000_0000_0000, a.l1 / 0x8000_0000_0000) }

  function LoadVec(b: seq<u8>, at: nat): Vec
    requires at + 16 <= |b|
  {
    Vec(ReadLE64(b, at), ReadLE64(b, at + 8))
  }

  /** Two lanes of XXH3_accumulate_512_sse2, and a 128-bit half or quarter of the wider forms. */
  function AccumulateVec(acc: Vec, dataVec: Vec, keyVec: Vec): Vec {
    var dataKey := XorVec(dataVec, keyVec);
    var product := MulEven32(dataKey, Shuffle32(dataKey, 0, 3, 0, 1));
    var sum := Add64(acc, Shuffle32(dataVec, 1, 0, 3, 2));
    Add64(product, sum)
  }

  lemma ShuffledHalves(v: Vec)
    ensures MulEven32(v, Shuffle32(v, 0, 3, 0, 1))
         == Vec(Mult32(Lo32(v.l0), Hi32(v.l0)), Mult32(Lo32(v.l1), Hi32(v.l1)))
    ensures Shuffle32(v, 1, 0, 3, 2) == Vec(v.l1, v.l0)
  {
  }

  lemma AccumulateVecLanes(acc: Vec, data: Vec, key: Vec)
    ensures AccumulateVec(acc, data, key)
         == Vec(Add(Add(acc.l0, data.l1), Product(data.l0, key.l0)),
                Add(Add(acc.l1, data.l0), Product(data.l1, key.l1)))
  {
    ShuffledHalves(XorVec(data, key));
    ShuffledHalves(data);
    AddSwap(acc.l0, data.l1, Product(data.l0, key.l0));
    AddSwap(acc.l1, data.l0, Product(data.l1, key.l1));
  }

  lemma AccumulatePair(acc: Acc, stripe: Bytes64, key: Bytes64, i: nat)
    requires 2 * i < ACC_NB
    ensures var r := Accumulate512(acc, stripe, key);
            AccumulateVec(Vec(acc[2 * i], acc[2 * i + 1]), LoadVec(stripe, 16 * i), LoadVec(key, 16 * i))
            == Vec(r[2 * i], r[2 * i + 1])
  {
    LoadPair(stripe, i);
    LoadPair(key, i);
    var data, keys := Load(stripe), Load(key);
    LanePair(acc, data, Products(data, keys), i);
    AccumulateVecLanes(Vec(acc[2 * i], acc[2 * i + 1]), Vec(data[2 * i], data[2 * i + 1]),
                       Vec(keys[2 * i], keys[2 * i + 1]));
  }

  lemma LoadPair(b: Bytes64, i: nat)
    requires 2 * i < ACC_NB
    ensures LoadVec(b, 16 * i) == Vec(Load(b)[2 * i], Load(b)[2 * i + 1])
  {
  }

  lemma LanePair(acc: Acc, data: Acc, products: Acc, i: nat)
    requires 2 * i < ACC_NB
    ensures AddLanes(acc, data, products)[2 * i] == Add(Add(acc[2 * i], data[2 * i + 1]), products[2 * i])
    ensures AddLanes(acc, data, products)[2 * i + 1] == Add(Add(acc[2 * i + 1], data[2 * i]), products[2 * i + 1])
  {
    assert Partner(2 * i) == 2 * i + 1 && Partner(2 * i + 1) == 2 * i;
  }

  method AccumulateVector(acc: array<u64>, stripe: Bytes64, key: Bytes64)
    requires acc.Length == ACC_NB
    modifies acc
    ensures acc[..] == Accumulate512(old(acc[..]), stripe, key)
  {
    hide AccumulateVec, Accumulate512, LoadVec;
    ghost var was := acc[..];
    ghost var result := Accumulate512(was, stripe, key);
    for i := 0 to STRIPE_LEN / 16
      invariant forall j :: 2 * i <= j < ACC_NB ==> acc[j] == was[j]
      invariant forall j :: 0 <= j < 2 * i ==> acc[j] == result[j]
    {
      AccumulatePair(was, stripe, key, i);
      var lanes := AccumulateVec(Vec(acc[2 * i], acc[2 * i + 1]), LoadVec(stripe, 16 * i), LoadVec(key, 16 * i));
      acc[2 * i], acc[2 * i + 1] := lanes.l0, lanes.l1;
    }
  }

  // ---- the scramble ----

  function Whitened(lane: u64, key: u64): u64 { Xor64(Xor64(lane, lane / 0x8000_0000_0000), key) }

  function ScrambleLane(lane: u64, key: u64): u64 { (Whitened(lane, key) * PRIME32_1) % TWO_TO_THE_64 }

  function Scramble(acc: Acc, key: Bytes64): Acc
  {
    seq(ACC_NB, i requires 0 <= i < ACC_NB => ScrambleLane(acc[i], ReadLE64(key, 8 * i)))
  }

  method ScrambleScalar(acc: array<u64>, key: Bytes64)
    requires acc.Length == ACC_NB
    modifies acc
    ensures acc[..] == Scramble(old(acc[..]), key)
  {
    hide Xor64, ReadLE64;
    ghost var result := Scramble(acc[..], key);
    for i := 0 to ACC_NB
      invariant forall j :: i <= j < ACC_NB ==> acc[j] == old(acc[j])
      invariant forall j :: 0 <= j < i ==> acc[j] == result[j]
    {
      var acc64: u64 := Xor64(acc[i], acc[i] / 0x8000_0000_0000);
      acc64 := Xor64(acc64, ReadLE64(key, 8 * i));
      acc64 := (acc64 * PRIME32_1) % TWO_TO_THE_64;
      acc[i] := acc64;
    }
  }

  /** Multiplying the two halves and adding the shifted upper product is multiplying modulo 2^64. */
  lemma SplitProduct(x: u64)
    ensures Add(Mult32(Lo32(x), PRIME32_1), Join(0, Lo32(Mult32(Hi32(x), PRIME32_1))))
         == (x * PRIME32_1) % TWO_TO_THE_64
  {
    var lower, upper := Mult32(Lo32(x), PRIME32_1), Mult32(Hi32(x), PRIME32_1);
    ShiftedSum(lower, upper);
    assert x == Lo32(x) + TWO_TO_THE_32 * Hi32(x);
    assert x * PRIME32_1 == lower + TWO_TO_THE_32 * upper;
  }

  lemma ShiftedSum(lower: u64, upper: u64)
    ensures Add(lower, Join(0, Lo32(upper))) == (lower + TWO_TO_THE_32 * upper) % TWO_TO_THE_64
  {
    var k := Hi32(upper);
    assert lower + TWO_TO_THE_32 * upper == lower + Join(0, Lo32(upper)) + TWO_TO_THE_64 * k;
    Wraps(lower + Join(0, Lo32(upper)), k);
  }

  lemma Wraps(x: nat, k: nat)
    ensures (x + TWO_TO_THE_64 * k) % TWO_TO_THE_64 == x % TWO_TO_THE_64
  {
  }

  function ScrambleVec(acc: Vec, keyVec: Vec): Vec {
    var prime32 := Vec(Join(PRIME32_1, PRIME32_1), Join(PRIME32_1, PRIME32_1));
    var dataVec := XorVec(acc, ShiftRight47(acc));
    var dataKey := XorVec(dataVec, keyVec);
    var dataKeyHi := Shuffle32(dataKey, 0, 3, 0, 1);
    var prodLo := MulEven32(dataKey, prime32);
    var prodHi := MulEven32(dataKeyHi, prime32);
    Add64(prodLo, ShiftLeft32(prodHi))
  }

  lemma ScrambleVecLanes(acc: Vec, key: Vec)
    ensures ScrambleVec(acc, key) == Vec(ScrambleLane(acc.l0, key.l0), ScrambleLane(acc.l1, key.l1))
  {
    SplitProduct(Whitened(acc.l0, key.l0));
    SplitProduct(Whitened(acc.l1, key.l1));
  }

  lemma ScramblePair(acc: Acc, key: Bytes64, i: nat)
    requires 2 * i < ACC_NB
    ensures var r := Scramble(acc, key);
            ScrambleVec(Vec(acc[2 * i], acc[2 * i + 1]), LoadVec(key, 16 * i)) == Vec(r[2 * i], r[2 * i + 1])
  {
    ScrambleVecLanes(Vec(acc[2 * i], acc[2 * i + 1]), LoadVec(key, 16 * i));
    hide ScrambleVec, ScrambleLane, ReadLE64;
  }

  method ScrambleVector(acc: array<u64>, key: Bytes64)
    requires acc.Length == ACC_NB
    modifies acc
    ensures acc[..] == Scramble(old(acc[..]), key)
  {
    hide ScrambleVec, Scramble, LoadVec;
    ghost var was: Acc := acc[..];
    ghost var result := Scramble(was, key);
    for i := 0 to STRIPE_LEN / 16
      invariant forall j :: 2 * i <= j < ACC_NB ==> acc[j] == was[j]
      invariant forall j :: 0 <= j < 2 * i ==> acc[j] == result[j]
    {
      ScramblePair(was, key, i);
      var accVec, keyVec := Vec(acc[2 * i], acc[2 * i + 1]), LoadVec(key, 16 * i);
      var lanes := ScrambleVec(accVec, keyVec);
      acc[2 * i], acc[2 * i + 1] := lanes.l0, lanes.l1;
    }
  }

  // ---- the secret of a seed ----

  /** Words of the default secret, the even ones moved up by the seed and the odd ones down. */
  function DerivedWord(kSecret: DefaultSecret, seed: u64, n: nat): u64
    requires 8 * n + 8 <= SECRET_DEFAULT_SIZE
  {
    var word := ReadLE64(kSecret, 8 * n);
    if n % 2 == 0 then Add(word, seed) else Sub(word, seed)
  }

  function DeriveSecret(kSecret: DefaultSecret, seed: u64): DefaultSecret {
    seq(|kSecret|, i requires 0 <= i < |kSecret| => ByteAt(DerivedWord(kSecret, seed, i / 8), i % 8))
  }

  lemma DerivedBytes(kSecret: DefaultSecret, seed: u64, n: nat, i: nat)
    requires 8 * n + 8 <= SECRET_DEFAULT_SIZE && i < 8
    ensures DeriveSecret(kSecret, seed)[8 * n + i] == ByteAt(DerivedWord(kSecret, seed, n), i)
  {
    hide DerivedWord, ByteAt;
    assert (8 * n + i) / 8 == n && (8 * n + i) % 8 == i;
  }

  /** One round writes two words. */
  method DeriveRound(customSecret: array<u8>, kSecret: DefaultSecret, seed: u64, lo: u64, hi: u64, i: nat)
    requires customSecret.Length == SECRET_DEFAULT_SIZE >= 16 * i + 16
    requires lo == DerivedWord(kSecret, seed, 2 * i) && hi == DerivedWord(kSecret, seed, 2 * i + 1)
    modifies customSecret
    ensures forall j :: 0 <= j < SECRET_DEFAULT_SIZE ==>
              customSecret[j] == if 16 * i <= j < 16 * i + 16 then DeriveSecret(kSecret, seed)[j]
                                 else old(customSecret[j])
  {
    hide DerivedWord, ByteAt, DeriveSecret;
    WriteLE64(customSecret, 16 * i, lo);
    WriteLE64(customSecret, 16 * i + 8, hi);
    ghost var derived := DeriveSecret(kSecret, seed);
    forall j | 16 * i <= j < 16 * i + 16
      ensures customSecret[j] == derived[j]
    {
      if j < 16 * i + 8 {
        DerivedBytes(kSecret, seed, 2 * i, j - 16 * i);
      } else {
        DerivedBytes(kSecret, seed, 2 * i + 1, j - 16 * i - 8);
      }
    }
  }

  lemma DerivedPair(kSecret: DefaultSecret, seed: u64, i: nat)
    requires 16 * i + 16 <= SECRET_DEFAULT_SIZE
    ensures DerivedWord(kSecret, seed, 2 * i) == Add(ReadLE64(kSecret, 16 * i), seed)
    ensures DerivedWord(kSecret, seed, 2 * i + 1) == Sub(ReadLE64(kSecret, 16 * i + 8), seed)
  {
    hide ReadLE64, Add, Sub;
    assert (2 * i) % 2 == 0 && (2 * i + 1) % 2 == 1;
  }

  /** XXH3_initCustomSecret_scalar */
  method InitCustomSecretScalar(customSecret: array<u8>, kSecret: DefaultSecret, seed: u64)
    requires customSecret.Length == SECRET_DEFAULT_SIZE
    modifies customSecret
    ensures customSecret[..] == DeriveSecret(kSecret, seed)
  {
    hide DeriveSecret, DerivedWord, ReadLE64, Add, Sub;
    var nbRounds := SECRET_DEFAULT_SIZE / 16;
    for i := 0 to nbRounds
      invariant forall j :: 0 <= j < 16 * i ==> customSecret[j] == DeriveSecret(kSecret, seed)[j]
    {
      DerivedPair(kSecret, seed, i);
      var lo := Add(ReadLE64(kSecret, 16 * i), seed);
      var hi := Sub(ReadLE64(kSecret, 16 * i + 8), seed);
      DeriveRound(customSecret, kSecret, seed, lo, hi, i);
    }
  }

  /** XXH3_initCustomSecret_sse2 adds one vector holding the seed and its negation. */
  method InitCustomSecretVector(customSecret: array<u8>, kSecret: DefaultSecret, seed: u64)
    requires customSecret.Length == SECRET_DEFAULT_SIZE
    modifies customSecret
    ensures customSecret[..] == DeriveSecret(kSecret, seed)
  {
    hide DeriveSecret, DerivedWord, ReadLE64, Add, Sub;
    var seedVec := Vec(seed, Sub(0, seed));
    var nbRounds := SECRET_DEFAULT_SIZE / 16;
    for i := 0 to nbRounds
      invariant forall j :: 0 <= j < 16 * i ==> customSecret[j] == DeriveSecret(kSecret, seed)[j]
    {
      DerivedPair(kSecret, seed, i);
      AddNegation(ReadLE64(kSecret, 16 * i + 8), seed);
      var sum := Add64(LoadVec(kSecret, 16 * i), seedVec);
      DeriveRound(customSecret, kSecret, seed, sum.l0, sum.l1, i);
    }
  }

  // ---- the last step ----

  function XorShift(x: u64, p: nat): u64
    requires p > 0
  {
    Xor64(x, x / p)
  }

  /** XXH3_avalanche */
  function Avalanche(h: u64): u64 {
    XorShift((XorShift(h, 0x20_0000_0000) * 0x165667919E3779F9) % TWO_TO_THE_64, 0x1_0000_0000)
  }

  function Mul128Fold64(lhs: u64, rhs: u64): u64 {
    var product := Mult64To128(lhs, rhs);
    Xor64(product.0, product.1)
  }

  /** XXH3_mergeAccs, four pairs of lanes folded into `start`. */
  function MergeRounds(acc: Acc, secret: Bytes64, start: u64, n: nat): u64
    requires n <= 4
  {
    if n == 0 then start
    else Add(MergeRounds(acc, secret, start, n - 1),
             Mul128Fold64(Xor64(acc[2 * n - 2], ReadLE64(secret, 16 * n - 16)),
                          Xor64(acc[2 * n - 1], ReadLE64(secret, 16 * n - 8))))
  }

  function MergeAccs(acc: Acc, secret: Bytes64, start: u64): u64
  {
    Avalanche(MergeRounds(acc, secret, start, |acc| / 2))
  }

  /** XXH3_mergeAccs on the lanes in memory, the loop with XXH3_mix2Accs in it. */
  method MergeAccsInMemory(acc: array<u64>, secret: Bytes64, start: u64) returns (h: u64)
    requires acc.Length == ACC_NB
    ensures h == MergeAccs(acc[..], secret, start)
  {
    hide Mul128Fold64, Xor64, ReadLE64, Avalanche;
    var result64 := start;
    for i := 0 to 4
      invariant result64 == MergeRounds(acc[..], secret, start, i)
    {
      var mixed := Mul128Fold64(Xor64(acc[2 * i], ReadLE64(secret, 16 * i)),
                                Xor64(acc[2 * i + 1], ReadLE64(secret, 16 * i + 8)));
      result64 := Add(result64, mixed);
    }
    h := Avalanche(result64);
  }
}
