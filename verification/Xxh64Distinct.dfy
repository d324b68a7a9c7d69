/**
 * Which inputs XXH64 keeps apart: each of its steps can be undone, so that a word or byte of the
 * tail, the words before it and after it given, always tells in the hash.
 */
module Xxh64Distinct {
  import opened Words
  import opened Xxh64

  // ---- steps that can be undone ----

  /** Multiplying by an odd number is undone by multiplying by its inverse. */
  lemma MulInjective(x: u64, y: u64, p: u64, inverse: nat, turns: nat)
    requires inverse * p == 1 + turns * TWO_TO_THE_64 && Mul(x, p) == Mul(y, p)
    ensures x == y
  {
    hide Mul;
    MulBack(x, p, inverse, turns);
    MulBack(y, p, inverse, turns);
  }

  lemma MulBack(x: u64, p: u64, inverse: nat, turns: nat)
    requires inverse * p == 1 + turns * TWO_TO_THE_64
    ensures Wrap(inverse * Mul(x, p)) == x
  {
    var q := x * p / TWO_TO_THE_64;
    assert Mul(x, p) == x * p - q * TWO_TO_THE_64;
    var t := turns * x - inverse * q;
    Regrouped(x, p, inverse, turns, q);
    WholeTurns(x, t);
  }

  function Wrap(x: int): u64 { x % TWO_TO_THE_64 }

  lemma WholeTurns(x: u64, t: int)
    ensures Wrap(x + t * TWO_TO_THE_64) == x
  {
  }

  lemma Regrouped(x: int, p: int, inverse: int, turns: int, q: int)
    requires inverse * p == 1 + turns * TWO_TO_THE_64
    ensures inverse * (x * p - q * TWO_TO_THE_64) == x + (turns * x - inverse * q) * TWO_TO_THE_64
  {
    calc {
      inverse * (x * p - q * TWO_TO_THE_64);
      inverse * (x * p) - inverse * (q * TWO_TO_THE_64);
      { assert inverse * (x * p) == inverse * p * x; }
      { assert inverse * (q * TWO_TO_THE_64) == inverse * q * TWO_TO_THE_64; }
      (1 + turns * TWO_TO_THE_64) * x - inverse * q * TWO_TO_THE_64;
    }
  }

  lemma AddInjective(x: u64, y: u64, z: u64)
    requires Add(x, z) == Add(y, z)
    ensures x == y
  {
  }

  lemma Rotl64Injective(x: u64, y: u64, r: nat)
    requires r <= 64 && Rotl64(x, r) == Rotl64(y, r)
    ensures x == y
  {
    Pow2Of64();
    RotlInjective(x, y, r, 64);
    hide Rotl;
  }

  lemma ByP1(x: u64, y: u64)
    requires Mul(x, P1) == Mul(y, P1)
    ensures x == y
  {
    MulInjective(x, y, P1, 614540362697595703, 379806830464837242);
  }

  lemma ByP2(x: u64, y: u64)
    requires Mul(x, P2) == Mul(y, P2)
    ensures x == y
  {
    MulInjective(x, y, P2, 839798700976720815, 638699622168397319);
  }

  lemma ByP3(x: u64, y: u64)
    requires Mul(x, P3) == Mul(y, P3)
    ensures x == y
  {
    MulInjective(x, y, P3, 16855272203555305545, 1470722560960728959);
  }

  lemma ByP5(x: u64, y: u64)
    requires Mul(x, P5) == Mul(y, P5)
    ensures x == y
  {
    MulInjective(x, y, P5, 14236653164957433613, 2215118327355546487);
  }

  lemma XorWithInjective(x: u64, y: u64, z: u64)
    ensures Xor64(x, z) == Xor64(y, z) ==> x == y
    ensures Xor64(z, x) == Xor64(z, y) ==> x == y
  {
    hide Xor;
    if Xor64(x, z) == Xor64(y, z) {
      XorInjective(x, y, z);
    }
    XorSwaps(x, z);
    XorSwaps(y, z);
    if Xor64(z, x) == Xor64(z, y) {
      XorInjective(x, y, z);
    }
  }

  lemma AvalancheInjective(h: u64, g: u64)
    requires Avalanche(h) == Avalanche(g)
    ensures h == g
  {
    hide Mul, Xor64, Xor, Shifted;
    var a, a' := Mul(Xor64(h, h / 0x2_0000_0000), P2), Mul(Xor64(g, g / 0x2_0000_0000), P2);
    var b, b' := Mul(Xor64(a, a / 0x2000_0000), P3), Mul(Xor64(a', a' / 0x2000_0000), P3);
    Places(b);
    Places(b');
    ShiftInjective(b, b', 0x8000_0000);
    ByP3(Xor64(a, a / 0x2000_0000), Xor64(a', a' / 0x2000_0000));
    Places(a);
    Places(a');
    ShiftInjective(a, a', 0x1000_0000);
    ByP2(Xor64(h, h / 0x2_0000_0000), Xor64(g, g / 0x2_0000_0000));
    Places(h);
    Places(g);
    ShiftInjective(h, g, 0x1_0000_0000);
  }

  /** Shifted by 32, 29 and 33 places. */
  lemma Places(x: u64)
    ensures Shifted(x, 0x8000_0000) == x / 0x1_0000_0000
    ensures Shifted(x, 0x1000_0000) == x / 0x2000_0000
    ensures Shifted(x, 0x1_0000_0000) == x / 0x2_0000_0000
  {
  }

  lemma ShiftInjective(x: u64, y: u64, half: nat)
    requires half > 0 && Shifted(x, half) < TWO_TO_THE_64 && Shifted(y, half) < TWO_TO_THE_64
    requires Xor64(x, Shifted(x, half)) == Xor64(y, Shifted(y, half))
    ensures x == y
  {
    hide Xor, Shifted;
    XorShiftInjective(x, y, half);
  }

  lemma RoundInjective(w: u64, w': u64)
    requires Round(0, w) == Round(0, w')
    ensures w == w'
  {
    hide Mul, Rotl64, Add;
    ByP1(Rotl64(Add(0, Mul(w, P2)), 31), Rotl64(Add(0, Mul(w', P2)), 31));
    Rotl64Injective(Add(0, Mul(w, P2)), Add(0, Mul(w', P2)), 31);
    AddZero(Mul(w, P2));
    AddZero(Mul(w', P2));
    ByP2(w, w');
  }

  lemma AddZero(x: u64)
    ensures Add(0, x) == x
  {
  }

  // ---- one more word or byte ----

  lemma Process8Injective(h: u64, w: u64, h': u64, w': u64)
    requires Process8(h, w) == Process8(h', w') && (h == h' || w == w')
    ensures h == h' && w == w'
  {
    hide Mul, Rotl64, Add, Xor64, Round;
    var k, k' := Round(0, w), Round(0, w');
    AddInjective(Mul(Rotl64(Xor64(h, k), 27), P1), Mul(Rotl64(Xor64(h', k'), 27), P1), P4);
    ByP1(Rotl64(Xor64(h, k), 27), Rotl64(Xor64(h', k'), 27));
    Rotl64Injective(Xor64(h, k), Xor64(h', k'), 27);
    XorWithInjective(h, h', k);
    XorWithInjective(k, k', h);
    if h == h' {
      RoundInjective(w, w');
    }
  }

  lemma Process4Injective(h: u64, w: u32, h': u64, w': u32)
    requires Process4(h, w) == Process4(h', w') && (h == h' || w == w')
    ensures h == h' && w == w'
  {
    hide Mul, Rotl64, Add, Xor64;
    var k, k' := Mul(w, P1), Mul(w', P1);
    AddInjective(Mul(Rotl64(Xor64(h, k), 23), P2), Mul(Rotl64(Xor64(h', k'), 23), P2), P3);
    ByP2(Rotl64(Xor64(h, k), 23), Rotl64(Xor64(h', k'), 23));
    Rotl64Injective(Xor64(h, k), Xor64(h', k'), 23);
    XorWithInjective(h, h', k);
    XorWithInjective(k, k', h);
    if h == h' {
      ByP1(w, w');
    }
  }

  lemma Process1Injective(h: u64, b: u8, h': u64, b': u8)
    requires Process1(h, b) == Process1(h', b') && (h == h' || b == b')
    ensures h == h' && b == b'
  {
    hide Mul, Rotl64, Xor64;
    var k, k' := Mul(b, P5), Mul(b', P5);
    ByP1(Rotl64(Xor64(h, k), 11), Rotl64(Xor64(h', k'), 11));
    Rotl64Injective(Xor64(h, k), Xor64(h', k'), 11);
    XorWithInjective(h, h', k);
    XorWithInjective(k, k', h);
    if h == h' {
      ByP5(b, b');
    }
  }

  // ---- the tail ----

  /** No two hashes on their way end alike with the same bytes to come. */
  lemma {:induction false} TailInjective(h: u64, g: u64, b: seq<u8>)
    requires Tail(h, b) == Tail(g, b)
    ensures h == g
    decreases |b|
  {
    hide Process8, Process4, Process1, Avalanche, ReadLE64, ReadLE32;
    if |b| >= 8 {
      var w := ReadLE64(b, 0);
      TailInjective(Process8(h, w), Process8(g, w), b[8..]);
      Process8Injective(h, w, g, w);
    } else if |b| >= 4 {
      var w := ReadLE32(b, 0);
      TailInjective(Process4(h, w), Process4(g, w), b[4..]);
      Process4Injective(h, w, g, w);
    } else if |b| > 0 {
      TailInjective(Process1(h, b[0]), Process1(g, b[0]), b[1..]);
      Process1Injective(h, b[0], g, b[0]);
    } else {
      AvalancheInjective(h, g);
    }
  }

  /** How a tail of n bytes is taken: eights, then at most one four, then bytes. */
  predicate UnitAt(n: nat, at: nat, len: nat) {
    || (len == 8 && at % 8 == 0 && at + 8 <= n)
    || (len == 4 && at == n / 8 * 8 && at + 4 <= n)
    || (len == 1 && n - n % 4 <= at < n)
  }

  /** The same but for the bytes from `at` to `at + len`. */
  predicate SameOutside(b: seq<u8>, c: seq<u8>, at: nat, len: nat) {
    && |b| == |c| && at + len <= |b|
    && forall i :: 0 <= i < |b| && !(at <= i < at + len) ==> b[i] == c[i]
  }

  lemma Words64Differ(b: seq<u8>, c: seq<u8>)
    requires |b| >= 8 && |c| >= 8 && ReadLE64(b, 0) == ReadLE64(c, 0)
    ensures b[..8] == c[..8]
  {
    hide ReadLE32;
    assert ReadLE32(b, 0) == Lo32(ReadLE64(b, 0)) && ReadLE32(b, 4) == Hi32(ReadLE64(b, 0));
    assert ReadLE32(c, 0) == Lo32(ReadLE64(c, 0)) && ReadLE32(c, 4) == Hi32(ReadLE64(c, 0));
    Words32Differ(b, c, 0);
    Words32Differ(b, c, 4);
  }

  lemma Words32Differ(b: seq<u8>, c: seq<u8>, at: nat)
    requires at + 4 <= |b| && at + 4 <= |c| && ReadLE32(b, at) == ReadLE32(c, at)
    ensures b[at] == c[at] && b[at + 1] == c[at + 1] && b[at + 2] == c[at + 2] && b[at + 3] == c[at + 3]
  {
    Digit(b[at], ReadAbove(b, at + 1), c[at], ReadAbove(c, at + 1));
    Digit(b[at + 1], b[at + 2] as nat + 256 * (b[at + 3] as nat),
          c[at + 1], c[at + 2] as nat + 256 * (c[at + 3] as nat));
    Digit(b[at + 2], b[at + 3], c[at + 2], c[at + 3]);
  }

  /** The upper three bytes. */
  function ReadAbove(b: seq<u8>, at: nat): nat
    requires at + 3 <= |b|
  {
    b[at] as nat + 256 * (b[at + 1] as nat + 256 * (b[at + 2] as nat))
  }

  lemma Digit(lo: u8, hi: nat, lo': u8, hi': nat)
    requires lo + 256 * hi == lo' + 256 * hi'
    ensures lo == lo' && hi == hi'
  {
  }

  lemma RestOutside(b: seq<u8>, c: seq<u8>, at: nat, len: nat, k: nat)
    requires SameOutside(b, c, at, len) && k <= |b|
    ensures |b| == |c|
    ensures k <= at ==> SameOutside(b[k..], c[k..], at - k, len) && b[..k] == c[..k]
    ensures at + len <= k ==> b[k..] == c[k..]
  {
  }

  lemma PutTogether(b: seq<u8>, c: seq<u8>, k: nat)
    requires k <= |b| && k <= |c| && b[..k] == c[..k] && b[k..] == c[k..]
    ensures b == c
  {
    assert b == b[..k] + b[k..] && c == c[..k] + c[k..];
  }

  /** A unit is the first one, or one of the rest. */
  lemma UnitStep(n: nat, at: nat, len: nat)
    requires UnitAt(n, at, len)
    ensures n > 0 && Step(n) <= n
    ensures if at < Step(n) then at + len <= Step(n) else UnitAt(n - Step(n), at - Step(n), len)
  {
    if n >= 8 {
      EightLess(n);
      EightLess(at);
    } else {
      FewLeft(n);
    }
  }

  lemma EightLess(n: nat)
    ensures n >= 8 ==> (n - 8) % 8 == n % 8 && (n - 8) / 8 == n / 8 - 1 && (n - 8) % 4 == n % 4
    ensures n < 8 && n % 8 == 0 ==> n == 0
    ensures n - n % 4 >= n / 8 * 8
  {
    var q, m, k := n / 8, n % 8, n % 8 / 4;
    assert n == 8 * q + m && n == 4 * (2 * q + k) + m % 4;
    FourDigits(n, 2 * q + k, m % 4);
    if n >= 8 {
      FourDigits(n - 8, 2 * q - 2 + k, m % 4);
    }
  }

  lemma FourDigits(n: nat, q: nat, m: nat)
    requires m < 4 && n == 4 * q + m
    ensures n % 4 == m
  {
  }

  lemma FewLeft(n: nat)
    requires n < 8
    ensures n % 4 == (if n < 4 then n else n - 4) && n / 8 == 0
  {
  }

  /** The bytes of one unit tell in the hash. */
  lemma {:induction false} TailTells(h: u64, b: seq<u8>, c: seq<u8>, at: nat, len: nat)
    requires UnitAt(|b|, at, len) && SameOutside(b, c, at, len) && Tail(h, b) == Tail(h, c)
    ensures b == c
    decreases |b|
  {
    hide Process8, Process4, Process1, Avalanche, ReadLE64, ReadLE32, SameOutside, Tail, UnitAt, Step, TailStep;
    var k := Step(|b|);
    UnitStep(|b|, at, len);
    RestOutside(b, c, at, len, k);
    var g, g' := TailStep(h, b), TailStep(h, c);
    if at >= k {
      FirstSame(h, b, c, k);
      TailTells(g, b[k..], c[k..], at - k, len);
    } else {
      TailInjective(g, g', b[k..]);
      FirstTells(h, b, c);
    }
    PutTogether(b, c, k);
  }

  /** How many bytes the next step takes. */
  function Step(n: nat): (k: nat)
    ensures k > 0
  {
    if n >= 8 then 8 else if n >= 4 then 4 else 1
  }

  function TailStep(h: u64, b: seq<u8>): (g: u64)
    requires b != []
    ensures Tail(h, b) == Tail(g, b[Step(|b|)..])
  {
    if |b| >= 8 then Process8(h, ReadLE64(b, 0))
    else if |b| >= 4 then Process4(h, ReadLE32(b, 0))
    else Process1(h, b[0])
  }

  lemma FirstSame(h: u64, b: seq<u8>, c: seq<u8>, k: nat)
    requires |b| == |c| > 0 && k == Step(|b|) && b[..k] == c[..k]
    ensures TailStep(h, b) == TailStep(h, c)
  {
    hide Process8, Process4, Process1, ReadLE64, ReadLE32;
    assert b[0..k] == b[..k] && c[0..k] == c[..k];
    ReadAgree(b, 0, c, 0, k, 0);
    assert b[..k][0] == b[0] && c[..k][0] == c[0];
  }

  lemma FirstTells(h: u64, b: seq<u8>, c: seq<u8>)
    requires |b| == |c| > 0 && TailStep(h, b) == TailStep(h, c)
    ensures b[..Step(|b|)] == c[..Step(|b|)]
  {
    hide Process8, Process4, Process1, ReadLE64, ReadLE32;
    if |b| >= 8 {
      Process8Injective(h, ReadLE64(b, 0), h, ReadLE64(c, 0));
      Words64Differ(b, c);
    } else if |b| >= 4 {
      Process4Injective(h, ReadLE32(b, 0), h, ReadLE32(c, 0));
      Words32Differ(b, c, 0);
    } else {
      Process1Injective(h, b[0], h, c[0]);
    }
  }

  // ---- the hash ----

  /** Inputs that differ in one word or byte of the tail, the same before and after it, differ in the hash. */
  lemma UnitTells(seed: u64, x: seq<u8>, y: seq<u8>, at: nat, len: nat)
    requires var n := |x| / STRIPE * STRIPE; UnitAt(|x| - n, at, len) && SameOutside(x, y, n + at, len)
    requires Hash(seed, x) == Hash(seed, y)
    ensures x == y
  {
    hide Tail, LanesAfter, Mixed, UnitAt, SameOutside, Hash;
    var stripes := |x| / STRIPE;
    var n := stripes * STRIPE;
    TailBounds(|x| - n, at, len);
    RestOutside(x, y, n + at, len, n);
    SameBefore(seed, x, y, stripes);
    HashIs(seed, x, stripes);
    HashIs(seed, y, stripes);
    TailTells(Add(Mixed(seed, x, stripes), |x| % TWO_TO_THE_64), x[n..], y[n..], at, len);
    PutTogether(x, y, n);
  }

  lemma HashIs(seed: u64, x: seq<u8>, stripes: nat)
    requires stripes == |x| / STRIPE
    ensures Hash(seed, x) == Tail(Add(Mixed(seed, x, stripes), |x| % TWO_TO_THE_64), x[stripes * STRIPE..])
  {
  }

  lemma SameBefore(seed: u64, x: seq<u8>, y: seq<u8>, stripes: nat)
    requires stripes * STRIPE <= |x| && stripes * STRIPE <= |y| && x[..stripes * STRIPE] == y[..stripes * STRIPE]
    ensures Mixed(seed, x, stripes) == Mixed(seed, y, stripes)
  {
    hide LanesAfter, Converge;
    LanesAgree(seed, x, y, stripes);
  }

  lemma TailBounds(n: nat, at: nat, len: nat)
    requires UnitAt(n, at, len)
    ensures at + len <= n
  {
  }

  /** Inputs of one word or one byte have hashes of their own. */
  lemma OneWordTells(seed: u64, x: seq<u8>, y: seq<u8>)
    requires |x| == |y| && |x| in {1, 4, 8} && Hash(seed, x) == Hash(seed, y)
    ensures x == y
  {
    hide Hash;
    UnitTells(seed, x, y, 0, |x|);
  }

  /** Inputs without a whole stripe have another hash for every seed. */
  lemma SeedTells(seed: u64, other: u64, x: seq<u8>)
    requires |x| < STRIPE && Hash(seed, x) == Hash(other, x)
    ensures seed == other
  {
    hide Tail, LanesAfter, Add, Hash;
    assert x[0..] == x;
    HashIs(seed, x, 0);
    HashIs(other, x, 0);
    TailInjective(Add(Add(seed, P5), |x|), Add(Add(other, P5), |x|), x);
    AddInjective(Add(seed, P5), Add(other, P5), |x|);
    AddInjective(seed, other, P5);
  }
}
