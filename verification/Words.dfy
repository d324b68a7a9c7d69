/** Machine words as bounded integers, and bytes in memory. */
module Words {

  const TWO_TO_THE_32: nat := 0x1_0000_0000
  const TWO_TO_THE_64: nat := 0x1_0000_0000_0000_0000

  /** The largest object in memory: PTRDIFF_MAX bytes. */
  const OBJECT_MAX: nat := 0x7fff_ffff_ffff_ffff

  type u8 = x: int | 0 <= x < 256
  type u32 = x: int | 0 <= x < 0x1_0000_0000
  type u64 = x: int | 0 <= x < 0x1_0000_0000_0000_0000

  datatype Option<+T> = None | Some(value: T)

  function Lo32(x: u64): u32 { x % TWO_TO_THE_32 }

  function Hi32(x: u64): u32 { x / TWO_TO_THE_32 }

  function Join(lo: u32, hi: u32): (x: u64)
    ensures Lo32(x) == lo && Hi32(x) == hi
  {
    lo + hi * TWO_TO_THE_32
  }

  /** Addition that wraps. */
  function Add(x: u64, y: u64): u64 { (x + y) % TWO_TO_THE_64 }

  function Sub(x: u64, y: u64): u64 { (x - y) % TWO_TO_THE_64 }

  function Add32(x: u32, y: u32): u32 { (x + y) % TWO_TO_THE_32 }

  function Sub32(x: u32, y: u32): u32 { (x - y) % TWO_TO_THE_32 }

  lemma AddNegation(x: u64, y: u64)
    ensures Add(x, Sub(0, y)) == Sub(x, y)
  {
  }

  lemma AddTwice(x: u64, y: u64, z: u64)
    ensures Add(Add(x, y), z) == (x + y + z) % TWO_TO_THE_64
  {
  }

  lemma AddSwap(x: u64, y: u64, z: u64)
    ensures Add(Add(x, y), z) == Add(Add(x, z), y) == Add(z, Add(x, y))
  {
    AddTwice(x, y, z);
    AddTwice(x, z, y);
  }

  function Pow2(n: nat): nat { if n == 0 then 1 else 2 * Pow2(n - 1) }

  /** Exclusive or, bit by bit from the lowest. */
  function Xor(x: nat, y: nat): nat
    decreases x + y
  {
    if x == 0 && y == 0 then 0 else 2 * Xor(x / 2, y / 2) + (x + y) % 2
  }

  lemma {:induction false} XorBelow(x: nat, y: nat, n: nat)
    requires x < Pow2(n) && y < Pow2(n)
    ensures Xor(x, y) < Pow2(n)
  {
    if n > 0 {
      XorBelow(x / 2, y / 2, n - 1);
    }
  }

  lemma {:induction false} Pow2Sum(m: nat, n: nat)
    ensures Pow2(m + n) == Pow2(m) * Pow2(n)
  {
    if m > 0 {
      Pow2Sum(m - 1, n);
      DoubleProduct(Pow2(m - 1), Pow2(n));
    }
  }

  lemma DoubleProduct(a: nat, b: nat)
    ensures 2 * a * b == 2 * (a * b)
  {
  }

  lemma Pow2Of64()
    ensures Pow2(32) == TWO_TO_THE_32 && Pow2(64) == TWO_TO_THE_64
  {
    assert Pow2(4) == 16;
    hide Pow2;
    Pow2Sum(4, 4);
    assert Pow2(8) == 256;
    Pow2Sum(8, 8);
    assert Pow2(16) == 0x1_0000;
    Pow2Sum(16, 16);
    Pow2Sum(32, 32);
  }

  /** The powers of two that rotations need. */
  lemma Powers()
    ensures Pow2(1) == 2 && Pow2(7) == 0x80 && Pow2(11) == 0x800 && Pow2(12) == 0x1000 && Pow2(13) == 0x2000
    ensures Pow2(14) == 0x4000 && Pow2(15) == 0x8000 && Pow2(17) == 0x2_0000 && Pow2(18) == 0x4_0000
    ensures Pow2(19) == 0x8_0000 && Pow2(20) == 0x10_0000 && Pow2(21) == 0x20_0000 && Pow2(23) == 0x80_0000
    ensures Pow2(25) == 0x200_0000 && Pow2(27) == 0x800_0000 && Pow2(31) == 0x8000_0000
  {
    assert Pow2(1) == 2 && Pow2(4) == 16 && Pow2(7) == 0x80;
    hide Pow2;
    Pow2Sum(7, 4);
    Pow2Sum(11, 1);
    Pow2Sum(12, 1);
    Pow2Sum(13, 1);
    Pow2Sum(14, 1);
    Pow2Sum(13, 4);
    Pow2Sum(17, 1);
    Pow2Sum(18, 1);
    Pow2Sum(19, 1);
    Pow2Sum(20, 1);
    Pow2Sum(12, 11);
    Pow2Sum(21, 4);
    Pow2Sum(23, 4);
    Pow2Sum(27, 4);
  }

  lemma LargePowers()
    ensures Pow2(33) == 0x2_0000_0000 && Pow2(37) == 0x20_0000_0000 && Pow2(41) == 0x200_0000_0000
    ensures Pow2(46) == 0x4000_0000_0000 && Pow2(52) == 0x10_0000_0000_0000 && Pow2(53) == 0x20_0000_0000_0000
    ensures Pow2(57) == 0x200_0000_0000_0000 && Pow2(63) == 0x8000_0000_0000_0000
  {
    assert Pow2(4) == 16;
    hide Pow2;
    Powers();
    Pow2Of64();
    Pow2Sum(32, 1);
    Pow2Sum(33, 4);
    Pow2Sum(37, 4);
    Pow2Sum(23, 23);
    Pow2Sum(41, 11);
    Pow2Sum(52, 1);
    Pow2Sum(53, 4);
    Pow2Sum(52, 11);
  }

  /** The bytes from `first` to `first + n - 1`. */
  function Counting(first: u8, n: nat): seq<u8>
    requires first + n <= 256
  {
    seq(n, i requires 0 <= i < n => first + i)
  }

  function Xor64(x: u64, y: u64): u64 {
    Pow2Of64();
    XorBelow(x, y, 64);
    Xor(x, y)
  }

  lemma XorStep(x: nat, y: nat)
    ensures Xor(x, y) / 2 == Xor(x / 2, y / 2) && Xor(x, y) % 2 == (x + y) % 2
  {
  }

  lemma {:induction false} XorSwaps(x: nat, y: nat)
    ensures Xor(x, y) == Xor(y, x)
    decreases x + y
  {
    if x + y > 0 {
      XorSwaps(x / 2, y / 2);
    }
  }

  lemma {:induction false} XorZero(x: nat)
    ensures Xor(0, x) == x
  {
    if x > 0 {
      XorZero(x / 2);
    }
  }

  /** Bit j, counted from the lowest. */
  function Bit(x: nat, j: nat): nat {
    if j == 0 then x % 2 else Bit(x / 2, j - 1)
  }

  /** Exclusive or, said bit by bit. */
  lemma {:induction false} BitOfXor(x: nat, y: nat, j: nat)
    ensures Bit(Xor(x, y), j) == (Bit(x, j) + Bit(y, j)) % 2
  {
    XorStep(x, y);
    if j == 0 {
      Parities(x, y);
    } else {
      BitOfXor(x / 2, y / 2, j - 1);
      hide Xor;
    }
  }

  lemma Parities(x: nat, y: nat)
    ensures (x + y) % 2 == (x % 2 + y % 2) % 2
  {
  }

  /** What is above does not change the lower bits. */
  lemma {:induction false} BitBelow(q: nat, x: nat, n: nat, j: nat)
    requires j < n
    ensures Bit(Pow2(n) * q + x, j) == Bit(x, j)
  {
    var above := Pow2(n - 1) * q;
    DoubleProduct(Pow2(n - 1), q);
    assert Pow2(n) * q == 2 * above;
    TwiceAnd(above, x);
    if j > 0 {
      BitBelow(q, x / 2, n - 1, j - 1);
    }
  }

  lemma TwiceAnd(above: nat, x: nat)
    ensures (2 * above + x) / 2 == above + x / 2 && (2 * above + x) % 2 == x % 2
  {
  }

  /** A sum tells the lowest bit of one term from that of the other. */
  lemma SameNumber(x: nat, y: nat, a: nat, b: nat)
    requires x / 2 == y / 2 && (x + a) % 2 == (y + b) % 2 && a % 2 == b % 2
    ensures x == y
  {
  }

  /** No two words give the same exclusive or with a third. */
  lemma {:induction false} XorInjective(x: nat, y: nat, z: nat)
    requires Xor(x, z) == Xor(y, z)
    ensures x == y
    decreases x + y
  {
    if x + y > 0 {
      hide Xor;
      XorStep(x, z);
      XorStep(y, z);
      Smaller(x, y);
      XorInjective(x / 2, y / 2, z / 2);
      SameNumber(x, y, z, z);
    }
  }

  lemma Smaller(x: nat, y: nat)
    requires x + y > 0
    ensures x / 2 + y / 2 < x + y
  {
  }

  lemma Whole(x: nat, l: nat, hi: nat, lo: nat)
    requires lo < l && x == l * hi + lo
    ensures x / l == hi
  {
    assert x == l * (x / l) + x % l;
    SameParts(l, hi, lo, x / l, x % l);
  }

  /** Halving comes before or after dividing. */
  lemma HalfQuotient(x: nat, l: nat)
    requires l > 0
    ensures x / 2 / l == x / l / 2
  {
    var q, m := x / l, x % l;
    assert x == l * q + m;
    var low := q % 2 * l + m;
    HalfOfSum(x, l, q, m);
    Whole(x / 2, l, q / 2, low / 2);
  }

  lemma HalfOfSum(x: nat, l: nat, q: nat, m: nat)
    requires m < l && x == l * q + m
    ensures (q % 2 * l + m) / 2 < l && x / 2 == l * (q / 2) + (q % 2 * l + m) / 2
  {
    var t := q / 2;
    if q % 2 == 0 {
      assert l * q == 2 * (l * t);
    } else {
      assert q == 2 * t + 1;
      assert l * q == 2 * (l * t) + l;
    }
  }

  /** Shifted to the right by at least one place. */
  function Shifted(x: nat, half: nat): nat
    requires half > 0
  {
    Quotient(x, 2 * half)
  }

  function Quotient(x: nat, d: nat): nat
    requires d > 0
  {
    x / d
  }

  lemma ShiftedHalf(x: nat, half: nat)
    requires half > 0
    ensures Shifted(x, half) == x / 2 / half && Shifted(x / 2, half) == Shifted(x, half) / 2
  {
    var q, m := x / 2 / half, x / 2 % half;
    assert x / 2 == half * q + m;
    assert x == 2 * half * q + (2 * m + x % 2) by {
      assert 2 * half * q == 2 * (half * q);
    }
    Whole(x, 2 * half, q, 2 * m + x % 2);
    HalfQuotient(x, 2 * half);
  }

  lemma ShiftedSame(x: nat, y: nat, half: nat)
    requires half > 0 && x / 2 == y / 2
    ensures Shifted(x, half) == Shifted(y, half)
  {
    hide Shifted;
    ShiftedHalf(x, half);
    ShiftedHalf(y, half);
  }

  /** Nor do two words give the same one with themselves shifted. */
  lemma {:induction false} XorShiftInjective(x: nat, y: nat, half: nat)
    requires half > 0 && Xor(x, Shifted(x, half)) == Xor(y, Shifted(y, half))
    ensures x == y
    decreases x + y
  {
    hide Xor, Shifted;
    if x + y > 0 {
      XorStep(x, Shifted(x, half));
      XorStep(y, Shifted(y, half));
      ShiftedHalf(x, half);
      ShiftedHalf(y, half);
      Smaller(x, y);
      XorShiftInjective(x / 2, y / 2, half);
      ShiftedSame(x, y, half);
      SameNumber(x, y, Shifted(x, half), Shifted(y, half));
    }
  }

  function ReadLE32(b: seq<u8>, at: nat): u32
    requires at + 4 <= |b|
  {
    b[at] as int + 256 * (b[at + 1] as int + 256 * (b[at + 2] as int + 256 * b[at + 3] as int))
  }

  function Xor32(x: u32, y: u32): u32 {
    Pow2Of64();
    XorBelow(x, y, 32);
    Xor(x, y)
  }

  lemma {:induction false} Pow2Positive(n: nat)
    ensures Pow2(n) > 0
  {
    if n > 0 {
      Pow2Positive(n - 1);
    }
  }

  /** The part of x from l on, below the rest moved up by r. */
  function Swapped(x: nat, l: nat, r: nat): nat
    requires l > 0
  {
    x % l * r + x / l
  }

  lemma SwappedBelow(x: nat, l: nat, r: nat)
    requires l > 0 && x < l * r
    ensures x / l < r && Swapped(x, l, r) < l * r
  {
    var hi, lo := x / l, x % l;
    assert x == l * hi + lo;
    Upper(l, hi, lo, r);
    Distribute(r, lo, l);
    assert lo * r == r * lo && l * r == r * l;
  }

  lemma Upper(l: nat, hi: nat, lo: nat, r: nat)
    requires l * hi + lo < l * r
    ensures hi < r
  {
    if hi >= r {
      Distribute(l, r, hi + 1);
    }
  }

  lemma Distribute(l: nat, p: nat, q: nat)
    requires p < q
    ensures l * p + l <= l * q
  {
    var d := q - p - 1;
    assert l * q == l * p + l + l * d;
  }

  /** A number determines its two parts. */
  lemma SameParts(l: nat, hi: nat, lo: nat, hi': nat, lo': nat)
    requires lo < l && lo' < l && l * hi + lo == l * hi' + lo'
    ensures hi == hi' && lo == lo'
  {
    if hi < hi' {
      Distribute(l, hi, hi');
    } else if hi' < hi {
      Distribute(l, hi', hi);
    }
  }

  lemma SwappedInjective(x: nat, y: nat, l: nat, r: nat)
    requires l > 0 && x < l * r && y < l * r && Swapped(x, l, r) == Swapped(y, l, r)
    ensures x == y
  {
    hide Swapped;
    var hi, lo := InParts(x, l, r);
    var hi', lo' := InParts(y, l, r);
    SameParts(r, lo, hi, lo', hi');
  }

  lemma InParts(x: nat, l: nat, r: nat) returns (hi: nat, lo: nat)
    requires l > 0 && x < l * r
    ensures x == l * hi + lo && hi < r && Swapped(x, l, r) == r * lo + hi
  {
    SwappedBelow(x, l, r);
    hi, lo := x / l, x % l;
    assert lo * r == r * lo;
  }

  /** Rotation to the left in a word of n bits: the upper r bits come below the others. */
  function Rotl(x: nat, r: nat, n: nat): (y: nat)
    requires r <= n && x < Pow2(n)
    ensures y < Pow2(n)
  {
    Halves(n, r);
    SwappedBelow(x, Pow2(n - r), Pow2(r));
    Swapped(x, Pow2(n - r), Pow2(r))
  }

  lemma Halves(n: nat, r: nat)
    requires r <= n
    ensures Pow2(n - r) > 0 && Pow2(n) == Pow2(n - r) * Pow2(r)
  {
    Pow2Positive(n - r);
    Pow2Sum(n - r, r);
  }

  /** No two words are rotated to the same one. */
  lemma RotlInjective(x: nat, y: nat, r: nat, n: nat)
    requires r <= n && x < Pow2(n) && y < Pow2(n) && Rotl(x, r, n) == Rotl(y, r, n)
    ensures x == y
  {
    hide Pow2, Swapped;
    Halves(n, r);
    SwappedInjective(x, y, Pow2(n - r), Pow2(r));
  }

  function Rotl64(x: u64, r: nat): u64
    requires r <= 64
  {
    Pow2Of64();
    Rotl(x, r, 64)
  }

  function Rotl32(x: u32, r: nat): u32
    requires r <= 32
  {
    Pow2Of64();
    Rotl(x, r, 32)
  }

  /** The little-endian word at offset `at`. */
  function ReadLE64(b: seq<u8>, at: nat): u64
    requires at + 8 <= |b|
  {
    Join(ReadLE32(b, at), ReadLE32(b, at + 4))
  }

  /** A word inside equal slices reads the same. */
  lemma ReadAgree(b: seq<u8>, at: nat, c: seq<u8>, from: nat, len: nat, j: nat)
    requires at + len <= |b| && from + len <= |c| && b[at..at + len] == c[from..from + len]
    ensures j + 4 <= len ==> ReadLE32(b, at + j) == ReadLE32(c, from + j)
    ensures j + 8 <= len ==> ReadLE64(b, at + j) == ReadLE64(c, from + j)
  {
    forall i | at <= i < at + len
      ensures b[i] == c[i - at + from]
    {
      assert b[at..at + len][i - at] == c[from..from + len][i - at];
    }
  }

  lemma WrappedSum(a: nat, b: nat)
    ensures (a % TWO_TO_THE_64 + b) % TWO_TO_THE_64 == (a + b) % TWO_TO_THE_64
  {
  }

  lemma WrappedSum32(a: nat, b: nat)
    ensures (a % TWO_TO_THE_32 + b % TWO_TO_THE_32) % TWO_TO_THE_32 == (a + b) % TWO_TO_THE_32
  {
  }

  /** Byte `i` of `x`, counted from the lowest. */
  function ByteAt(x: nat, i: nat): u8 {
    if i == 0 then x % 256 else ByteAt(x / 256, i - 1)
  }

  /** A word as it is in memory. */
  function Bytes(x: u64): (b: seq<u8>)
    ensures |b| == 8 && forall i :: 0 <= i < 8 ==> b[i] == ByteAt(x, i)
  {
    seq(8, i requires 0 <= i => ByteAt(x, i))
  }


  /** What is in memory as bytes is read back. */
  lemma ReadBack(x: u64)
    ensures ReadLE64(Bytes(x), 0) == x
  {
    hide ReadLE32, ByteAt;
    var b, lo, hi := Bytes(x), Lo32(x), Hi32(x);
    HalvesOf(lo, hi, 0);
    HalvesOf(lo, hi, 1);
    HalvesOf(lo, hi, 2);
    HalvesOf(lo, hi, 3);
    assert x == Join(lo, hi);
    BytesRead(b, 0, lo);
    BytesRead(b, 4, hi);
  }

  lemma HalvesOf(lo: u32, hi: u32, i: nat)
    requires i < 4
    ensures ByteAt(Join(lo, hi), i) == ByteAt(lo, i) && ByteAt(Join(lo, hi), 4 + i) == ByteAt(hi, i)
  {
    var l1, l2, l3 := lo / 256, lo / 256 / 256, lo / 256 / 256 / 256;
    var x1, x2, x3 := 0x100_0000 * hi + l1, 0x1_0000 * hi + l2, 256 * hi + l3;
    assert Join(lo, hi) / 256 == x1 && Join(lo, hi) % 256 == lo % 256;
    assert x1 / 256 == x2 && x1 % 256 == l1 % 256;
    assert x2 / 256 == x3 && x2 % 256 == l2 % 256;
    assert x3 / 256 == hi && x3 % 256 == l3 % 256;
    assert ByteAt(Join(lo, hi), 4 + i) == ByteAt(x1, 3 + i) == ByteAt(x2, 2 + i) == ByteAt(x3, 1 + i);
    if i > 0 {
      assert ByteAt(Join(lo, hi), i) == ByteAt(x1, i - 1) && ByteAt(lo, i) == ByteAt(l1, i - 1);
    }
    if i > 1 {
      assert ByteAt(x1, i - 1) == ByteAt(x2, i - 2) && ByteAt(l1, i - 1) == ByteAt(l2, i - 2);
    }
    if i > 2 {
      assert ByteAt(x2, i - 2) == ByteAt(x3, i - 3) && ByteAt(l2, i - 2) == ByteAt(l3, i - 3);
    }
  }

  /** Byte by byte, a number below 2^32 is read. */
  lemma BytesRead(b: seq<u8>, at: nat, x: u32)
    requires at + 4 <= |b| && b[at] == ByteAt(x, 0) && b[at + 1] == ByteAt(x, 1)
    requires b[at + 2] == ByteAt(x, 2) && b[at + 3] == ByteAt(x, 3)
    ensures ReadLE32(b, at) == x
  {
    hide ByteAt;
    FourBytes(x);
    BytesInTurn(x);
  }

  lemma FourBytes(x: u32)
    ensures x == x % 256 + 256 * (x / 256 % 256 + 256 * (x / 256 / 256 % 256 + 256 * (x / 256 / 256 / 256 % 256)))
  {
    assert x / 256 / 256 / 256 < 256;
  }

  lemma BytesInTurn(x: nat)
    ensures ByteAt(x, 0) == x % 256 && ByteAt(x, 1) == x / 256 % 256
    ensures ByteAt(x, 2) == x / 256 / 256 % 256 && ByteAt(x, 3) == x / 256 / 256 / 256 % 256
  {
    assert ByteAt(x, 1) == ByteAt(x / 256, 0);
    assert ByteAt(x, 2) == ByteAt(x / 256, 1) == ByteAt(x / 256 / 256, 0);
    assert ByteAt(x, 3) == ByteAt(x / 256, 2) == ByteAt(x / 256 / 256, 1) == ByteAt(x / 256 / 256 / 256, 0);
  }

  /** XXH_writeLE64 */
  method WriteLE64(dst: array<u8>, at: nat, x: u64)
    requires at + 8 <= dst.Length
    modifies dst
    ensures forall i :: 0 <= i < dst.Length ==>
              dst[i] == if at <= i < at + 8 then ByteAt(x, i - at) else old(dst[i])
  {
    forall i | 0 <= i < 8 {
      dst[at + i] := ByteAt(x, i);
    }
  }

  /** memcpy of `src` to offset `at` of `dst`. */
  method CopyInto(dst: array<u8>, at: nat, src: seq<u8>)
    requires at + |src| <= dst.Length
    modifies dst
    ensures dst[..] == old(dst[..at]) + src + old(dst[at + |src|..])
  {
    forall i | 0 <= i < |src| {
      dst[at + i] := src[i];
    }
  }

  /** The pieces of an input, put together again. */
  function Concat(pieces: seq<seq<u8>>): (all: seq<u8>)
    ensures forall i :: 0 <= i < |pieces| ==> |pieces[i]| <= |all|
  {
    if pieces == [] then [] else Concat(pieces[..|pieces| - 1]) + pieces[|pieces| - 1]
  }
}
