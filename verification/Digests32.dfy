/** The XXH32 digests of the empty input and of a fixed longer one, worked out step by step. */
module Digests32 {
  import opened Words
  import opened ExclusiveOr
  import opened Xxh32

  /** The rotations that occur, with their powers of two. */
  lemma Rotations(x: u32)
    ensures Rotl32(x, 1) == Swapped(x, 0x8000_0000, 2)
    ensures Rotl32(x, 7) == Swapped(x, 0x200_0000, 0x80)
    ensures Rotl32(x, 11) == Swapped(x, 0x20_0000, 0x800)
    ensures Rotl32(x, 12) == Swapped(x, 0x10_0000, 0x1000)
    ensures Rotl32(x, 13) == Swapped(x, 0x8_0000, 0x2000)
    ensures Rotl32(x, 17) == Swapped(x, 0x8000, 0x2_0000)
    ensures Rotl32(x, 18) == Swapped(x, 0x4000, 0x4_0000)
  {
    hide Swapped, Pow2;
    Powers();
  }

  // ---- one step from the numbers that occur in it ----

  lemma RoundIs(acc: u32, input: u32, product: u32, sum: u32, rotated: u32, result: u32)
    requires Mul(input, P2) == product && Add32(acc, product) == sum
    requires Swapped(sum, 0x8_0000, 0x2000) == rotated && Mul(rotated, P1) == result
    ensures Round(acc, input) == result
  {
    Rotations(sum);
    hide Mul, Add32, Swapped, Rotl32;
  }

  lemma Process4Is(h: u32, w: u32, scaled: u32, mixed: u32, rotated: u32, result: u32)
    requires Mul(w, P3) == scaled && Add32(h, scaled) == mixed && Swapped(mixed, 0x8000, 0x2_0000) == rotated
    requires Mul(rotated, P4) == result
    ensures Process4(h, w) == result
  {
    Rotations(mixed);
    hide Mul, Add32, Swapped, Rotl32;
  }

  lemma Process1Is(h: u32, b: u8, scaled: u32, mixed: u32, rotated: u32, result: u32)
    requires Mul(b, P5) == scaled && Add32(h, scaled) == mixed && Swapped(mixed, 0x20_0000, 0x800) == rotated
    requires Mul(rotated, P1) == result
    ensures Process1(h, b) == result
  {
    Rotations(mixed);
    hide Mul, Add32, Swapped, Rotl32;
  }

  lemma AvalancheIs(h: u32, x: u32, a: u32, y: u32, b: u32, result: u32)
    requires Xor32(h, h / 0x8000) == x && Mul(x, P2) == a
    requires Xor32(a, a / 0x2000) == y && Mul(y, P3) == b && Xor32(b, b / 0x1_0000) == result
    ensures Avalanche(h) == result
  {
    hide Mul, Xor32;
  }

  lemma FirstAvalancheOfEmpty()
    ensures Xor32(0x165667b1, 0x00002cac) == 0x16564b1d
  {
    hide Xor;
    XorIs(0x165667b1, 0x00002cac, 0x165667b1, 0x00002cac, 0x16564b1d);
  }

  lemma SecondAvalancheOfEmpty()
    ensures Xor32(0x7e00cc7b, 0x0003f006) == 0x7e033c7d
  {
    hide Xor;
    XorIs(0x7e00cc7b, 0x0003f006, 0x7e00cc7b, 0x0003f006, 0x7e033c7d);
  }

  lemma ThirdAvalancheOfEmpty()
    ensures Xor32(0x02cc5fc9, 0x000002cc) == 0x02cc5d05
  {
    hide Xor;
    XorIs(0x02cc5fc9, 0x000002cc, 0x02cc5fc9, 0x000002cc, 0x02cc5d05);
  }

  lemma AvalancheOfEmpty()
    ensures Avalanche(0x165667b1) == 0x02cc5d05
  {
    hide Xor32;
    FirstAvalancheOfEmpty();
    SecondAvalancheOfEmpty();
    ThirdAvalancheOfEmpty();
    AvalancheIs(0x165667b1, 0x16564b1d, 0x7e00cc7b, 0x7e033c7d, 0x02cc5fc9, 0x02cc5d05);
  }

  /** The digest of the empty input. */
  lemma OfEmpty()
    ensures Hash(0, []) == 0x02cc5d05
  {
    AvalancheOfEmpty();
    hide Avalanche;
  }

  lemma WordsOfCounting()
    ensures var data := Counting(0, 23);
            && ReadLE32(data, 0) == 0x03020100 && ReadLE32(data, 4) == 0x07060504
            && ReadLE32(data, 8) == 0x0b0a0908 && ReadLE32(data, 12) == 0x0f0e0d0c
    ensures ReadLE32(Counting(16, 7), 0) == 0x13121110
  {
  }

  lemma Round1Counting()
    ensures Round(0xc25abdd9, 0x03020100) == 0xeccb9862
  {
    RoundIs(0xc25abdd9, 0x03020100, 0xe5b87700, 0xa81334d9, 0x669b3502, 0xeccb9862);
  }

  lemma Round2Counting()
    ensures Round(0x24234428, 0x07060504) == 0xf6d64d32
  {
    RoundIs(0x24234428, 0x07060504, 0xb26d7cdc, 0xd690c104, 0x18209ad2, 0xf6d64d32);
  }

  lemma Round3Counting()
    ensures Round(0x9e3779b1, 0x0b0a0908) == 0xda2e7c3b
  {
    RoundIs(0x9e3779b1, 0x0b0a0908, 0x7f2282b8, 0x1d59fc69, 0x3f8d23ab, 0xda2e7c3b);
  }

  lemma Round4Counting()
    ensures Round(0x00000000, 0x0f0e0d0c) == 0x4601b75a
  {
    RoundIs(0x00000000, 0x0f0e0d0c, 0x4bd78894, 0x4bd78894, 0xf112897a, 0x4601b75a);
  }

  lemma LanesOfCounting()
    ensures LanesAfter(0x9e3779b1, Counting(0, 23), 1) == Lanes(0xeccb9862, 0xf6d64d32, 0xda2e7c3b, 0x4601b75a)
  {
    hide Round, ReadLE32;
    WordsOfCounting();
    Round1Counting();
    Round2Counting();
    Round3Counting();
    Round4Counting();
    assert InitLanes(0x9e3779b1) == Lanes(0xc25abdd9, 0x24234428, 0x9e3779b1, 0x00000000);
  }

  lemma SumCounting()
    ensures Swapped(0xeccb9862, 0x8000_0000, 2) == 0xd99730c5 && Swapped(0xf6d64d32, 0x200_0000, 0x80) == 0x6b26997b
    ensures Swapped(0xda2e7c3b, 0x10_0000, 0x1000) == 0xe7c3bda2 && Swapped(0x4601b75a, 0x4000, 0x4_0000) == 0xdd691806
    ensures Add32(Add32(Add32(0xd99730c5, 0x6b26997b), 0xe7c3bda2), 0xdd691806) == 0x09ea9fe8
  {
  }

  lemma ConvergeCounting()
    ensures Converge(Lanes(0xeccb9862, 0xf6d64d32, 0xda2e7c3b, 0x4601b75a)) == 0x09ea9fe8
  {
    hide Rotl32, Swapped, Add32;
    SumCounting();
    Rotations(0xeccb9862);
    Rotations(0xf6d64d32);
    Rotations(0xda2e7c3b);
    Rotations(0x4601b75a);
  }

  lemma Four()
    ensures Process4(0x09ea9fff, 0x13121110) == 0x536f67ad
  {
    Process4Is(0x09ea9fff, 0x13121110, 0xd006f0d0, 0xd9f190cf, 0x219fb3e3, 0x536f67ad);
  }

  lemma One20()
    ensures Process1(0x536f67ad, 20) == 0xc9857541
  {
    Process1Is(0x536f67ad, 20, 0xbec019d4, 0x122f8181, 0x7c0c0891, 0xc9857541);
  }

  lemma One21()
    ensures Process1(0xc9857541, 21) == 0xc46df0b4
  {
    Process1Is(0xc9857541, 21, 0xd5168185, 0x9e9bf6c6, 0xdfb634f4, 0xc46df0b4);
  }

  lemma One22()
    ensures Process1(0xc46df0b4, 22) == 0xa6d4aa1e
  {
    Process1Is(0xc46df0b4, 22, 0xeb6ce936, 0xafdad9ea, 0xd6cf557e, 0xa6d4aa1e);
  }

  lemma FirstAvalancheOfCounting()
    ensures Xor32(0xa6d4aa1e, 0x00014da9) == 0xa6d5e7b7
  {
    hide Xor;
    XorIs(0xa6d4aa1e, 0x00014da9, 0xa6d4aa1e, 0x00014da9, 0xa6d5e7b7);
  }

  lemma SecondAvalancheOfCounting()
    ensures Xor32(0x1e421c11, 0x0000f210) == 0x1e42ee01
  {
    hide Xor;
    XorIs(0x1e421c11, 0x0000f210, 0x1e421c11, 0x0000f210, 0x1e42ee01);
  }

  lemma ThirdAvalancheOfCounting()
    ensures Xor32(0xf269643d, 0x0000f269) == 0xf2699654
  {
    hide Xor;
    XorIs(0xf269643d, 0x0000f269, 0xf269643d, 0x0000f269, 0xf2699654);
  }

  lemma AvalancheOfCounting()
    ensures Avalanche(0xa6d4aa1e) == 0xf2699654
  {
    hide Xor32;
    FirstAvalancheOfCounting();
    SecondAvalancheOfCounting();
    ThirdAvalancheOfCounting();
    AvalancheIs(0xa6d4aa1e, 0xa6d5e7b7, 0x1e421c11, 0x1e42ee01, 0xf269643d, 0xf2699654);
  }

  lemma TailOfCounting()
    ensures Tail(0x09ea9fff, Counting(16, 7)) == 0xf2699654
  {
    hide Process4, Process1, Avalanche, ReadLE32;
    WordsOfCounting();
    Four();
    One20();
    One21();
    One22();
    AvalancheOfCounting();
    assert Counting(16, 7)[4..] == [20, 21, 22];
    assert Tail(0xc46df0b4, [22]) == Tail(0xa6d4aa1e, []);
    assert [21, 22][1..] == [22] && [20, 21, 22][1..] == [21, 22];
    assert Tail(0xc9857541, [21, 22]) == Tail(0xc46df0b4, [22]);
    assert Tail(0x536f67ad, [20, 21, 22]) == Tail(0xc9857541, [21, 22]);
  }

  /** A stripe, four bytes and three more, all different, and a seed. */
  lemma OfCounting()
    ensures Hash(0x9e3779b1, Counting(0, 23)) == 0xf2699654
  {
    hide LanesAfter, Converge, Tail;
    LanesOfCounting();
    ConvergeCounting();
    TailOfCounting();
    assert Counting(0, 23)[16..] == Counting(16, 7);
  }
}
