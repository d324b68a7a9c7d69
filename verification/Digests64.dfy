/** The XXH64 digests of the empty input and of a fixed longer one, worked out step by step. */
module Digests64 {
  import opened Words
  import opened ExclusiveOr
  import opened Xxh64

  /** The rotations that occur, with their powers of two. */
  lemma Rotations(x: u64)
    ensures Rotl64(x, 1) == Swapped(x, 0x8000_0000_0000_0000, 2)
    ensures Rotl64(x, 7) == Swapped(x, 0x200_0000_0000_0000, 0x80)
    ensures Rotl64(x, 11) == Swapped(x, 0x20_0000_0000_0000, 0x800)
    ensures Rotl64(x, 12) == Swapped(x, 0x10_0000_0000_0000, 0x1000)
    ensures Rotl64(x, 18) == Swapped(x, 0x4000_0000_0000, 0x4_0000)
    ensures Rotl64(x, 23) == Swapped(x, 0x200_0000_0000, 0x80_0000)
    ensures Rotl64(x, 27) == Swapped(x, 0x20_0000_0000, 0x800_0000)
    ensures Rotl64(x, 31) == Swapped(x, 0x2_0000_0000, 0x8000_0000)
  {
    hide Swapped, Pow2;
    Powers();
    LargePowers();
  }

  // ---- one step from the numbers that occur in it ----

  lemma RoundIs(acc: u64, input: u64, product: u64, sum: u64, rotated: u64, result: u64)
    requires Mul(input, P2) == product && Add(acc, product) == sum
    requires Swapped(sum, 0x2_0000_0000, 0x8000_0000) == rotated && Mul(rotated, P1) == result
    ensures Round(acc, input) == result
  {
    Rotations(sum);
    hide Mul, Add, Swapped, Rotl64;
  }

  lemma MergeIs(acc: u64, val: u64, round: u64, mixed: u64, product: u64, result: u64)
    requires Round(0, val) == round && Xor64(acc, round) == mixed
    requires Mul(mixed, P1) == product && Add(product, P4) == result
    ensures MergeRound(acc, val) == result
  {
    hide Round, Mul, Add, Xor64;
  }

  lemma Process8Is(h: u64, w: u64, round: u64, mixed: u64, rotated: u64, product: u64, result: u64)
    requires Round(0, w) == round && Xor64(h, round) == mixed && Swapped(mixed, 0x20_0000_0000, 0x800_0000) == rotated
    requires Mul(rotated, P1) == product && Add(product, P4) == result
    ensures Process8(h, w) == result
  {
    Rotations(mixed);
    hide Round, Mul, Add, Xor64, Swapped, Rotl64;
  }

  lemma Process4Is(h: u64, w: u32, scaled: u64, mixed: u64, rotated: u64, product: u64, result: u64)
    requires Mul(w, P1) == scaled && Xor64(h, scaled) == mixed && Swapped(mixed, 0x200_0000_0000, 0x80_0000) == rotated
    requires Mul(rotated, P2) == product && Add(product, P3) == result
    ensures Process4(h, w) == result
  {
    Rotations(mixed);
    hide Mul, Add, Xor64, Swapped, Rotl64;
  }

  lemma Process1Is(h: u64, b: u8, scaled: u64, mixed: u64, rotated: u64, result: u64)
    requires Mul(b, P5) == scaled && Xor64(h, scaled) == mixed && Swapped(mixed, 0x20_0000_0000_0000, 0x800) == rotated
    requires Mul(rotated, P1) == result
    ensures Process1(h, b) == result
  {
    Rotations(mixed);
    hide Mul, Xor64, Swapped, Rotl64;
  }

  lemma AvalancheIs(h: u64, x: u64, a: u64, y: u64, b: u64, result: u64)
    requires Xor64(h, h / 0x2_0000_0000) == x && Mul(x, P2) == a
    requires Xor64(a, a / 0x2000_0000) == y && Mul(y, P3) == b && Xor64(b, b / 0x1_0000_0000) == result
    ensures Avalanche(h) == result
  {
    hide Mul, Xor64;
  }

  lemma FirstAvalancheOfEmpty()
    ensures Xor64(0x27d4eb2f165667c5, 0x0000000013ea7597) == 0x27d4eb2f05bc1252
  {
    hide Xor;
    XorIs(0x27d4eb2f165667c5, 0x0000000013ea7597, 0x27d4eb2f165667c5, 0x0000000013ea7597, 0x27d4eb2f05bc1252);
  }

  lemma SecondAvalancheOfEmpty()
    ensures Xor64(0xbeb13dda13c2ed4e, 0x00000005f589eed0) == 0xbeb13ddfe64b039e
  {
    hide Xor;
    XorIs(0xbeb13dda13c2ed4e, 0x00000005f589eed0, 0xbeb13dda13c2ed4e, 0x00000005f589eed0, 0xbeb13ddfe64b039e);
  }

  lemma ThirdAvalancheOfEmpty()
    ensures Xor64(0xef46db37be9e32ae, 0x00000000ef46db37) == 0xef46db3751d8e999
  {
    hide Xor;
    XorIs(0xef46db37be9e32ae, 0x00000000ef46db37, 0xef46db37be9e32ae, 0x00000000ef46db37, 0xef46db3751d8e999);
  }

  lemma AvalancheOfEmpty()
    ensures Avalanche(0x27d4eb2f165667c5) == 0xef46db3751d8e999
  {
    hide Xor64;
    FirstAvalancheOfEmpty();
    SecondAvalancheOfEmpty();
    ThirdAvalancheOfEmpty();
    AvalancheIs(0x27d4eb2f165667c5, 0x27d4eb2f05bc1252, 0xbeb13dda13c2ed4e, 0xbeb13ddfe64b039e,
                0xef46db37be9e32ae, 0xef46db3751d8e999);
  }

  /** The digest of the empty input. */
  lemma OfEmpty()
    ensures Hash(0, []) == 0xef46db3751d8e999
  {
    AvalancheOfEmpty();
    hide Avalanche;
  }

  lemma WordsOfCounting()
    ensures var data := Counting(0, 45);
            && ReadLE64(data, 0) == 0x0706050403020100 && ReadLE64(data, 8) == 0x0f0e0d0c0b0a0908
            && ReadLE64(data, 16) == 0x1716151413121110 && ReadLE64(data, 24) == 0x1f1e1d1c1b1a1918
  {
  }

  lemma Round1Counting()
    ensures Round(0x60ea27ef4bf82f87, 0x0706050403020100) == 0xe4962682c06b5e99
  {
    RoundIs(0x60ea27ef4bf82f87, 0x0706050403020100, 0x3b6643cf98894f00, 0x9c506bbee4817e87,
            0x7240bf43ce2835df, 0xe4962682c06b5e99);
  }

  lemma Round2Counting()
    ensures Round(0xc2b2ae3dc60c6500, 0x0f0e0d0c0b0a0908) == 0xb3b4367c9fc32561
  {
    RoundIs(0xc2b2ae3dc60c6500, 0x0f0e0d0c0b0a0908, 0xfa0f577151032178, 0xbcc205af170f8678,
            0x8b87c33c5e6102d7, 0xb3b4367c9fc32561);
  }

  lemma Round3Counting()
    ensures Round(0x000000009e3779b1, 0x1716151413121110) == 0xbb07ab3348a1553f
  {
    RoundIs(0x000000009e3779b1, 0x1716151413121110, 0xb8b86b13097cf3f0, 0xb8b86b13a7b46da1,
            0xd3da36d0dc5c3589, 0xbb07ab3348a1553f);
  }

  lemma Round4Counting()
    ensures Round(0x61c8864f184baf2a, 0x1f1e1d1c1b1a1918) == 0x8a25bb2d27f91c07
  {
    RoundIs(0x61c8864f184baf2a, 0x1f1e1d1c1b1a1918, 0x77617eb4c1f6c668, 0xd92a0503da427592,
            0xed213ac96c950281, 0x8a25bb2d27f91c07);
  }

  lemma LanesOfCounting()
    ensures LanesAfter(0x000000009e3779b1, Counting(0, 45), 1) == Lanes(0xe4962682c06b5e99, 0xb3b4367c9fc32561,
                                           0xbb07ab3348a1553f, 0x8a25bb2d27f91c07)
  {
    hide Round, ReadLE64;
    WordsOfCounting();
    Round1Counting();
    Round2Counting();
    Round3Counting();
    Round4Counting();
    assert InitLanes(0x000000009e3779b1) == Lanes(0x60ea27ef4bf82f87, 0xc2b2ae3dc60c6500,
                              0x000000009e3779b1, 0x61c8864f184baf2a);
  }

  lemma RoundMerge1Counting()
    ensures Round(0x0000000000000000, 0xe4962682c06b5e99) == 0x73b0e39f188cc92e
  {
    RoundIs(0x0000000000000000, 0xe4962682c06b5e99, 0xbb8b25c496aca437, 0xbb8b25c496aca437,
            0x4b56521bddc592e2, 0x73b0e39f188cc92e);
  }

  lemma XorMerge1Counting()
    ensures Xor64(0x0aaf5fc3e7db9252, 0x73b0e39f188cc92e) == 0x791fbc5cff575b7c
  {
    hide Xor;
    XorIs(0x0aaf5fc3e7db9252, 0x73b0e39f188cc92e, 0x0aaf5fc3e7db9252, 0x73b0e39f188cc92e, 0x791fbc5cff575b7c);
  }

  lemma Merge1Counting()
    ensures MergeRound(0x0aaf5fc3e7db9252, 0xe4962682c06b5e99) == 0xaf982571bec7c4c7
  {
    hide Round, Xor64;
    RoundMerge1Counting();
    XorMerge1Counting();
    MergeIs(0x0aaf5fc3e7db9252, 0xe4962682c06b5e99, 0x73b0e39f188cc92e, 0x791fbc5cff575b7c,
            0x29ac5af9fc151664, 0xaf982571bec7c4c7);
  }

  lemma RoundMerge2Counting()
    ensures Round(0x0000000000000000, 0xb3b4367c9fc32561) == 0xf1458175e8d98ad5
  {
    RoundIs(0x0000000000000000, 0xb3b4367c9fc32561, 0x328615872bdc93ef, 0x328615872bdc93ef,
            0x95ee49f799430ac3, 0xf1458175e8d98ad5);
  }

  lemma XorMerge2Counting()
    ensures Xor64(0xaf982571bec7c4c7, 0xf1458175e8d98ad5) == 0x5edda404561e4e12
  {
    hide Xor;
    XorIs(0xaf982571bec7c4c7, 0xf1458175e8d98ad5, 0xaf982571bec7c4c7, 0xf1458175e8d98ad5, 0x5edda404561e4e12);
  }

  lemma Merge2Counting()
    ensures MergeRound(0xaf982571bec7c4c7, 0xb3b4367c9fc32561) == 0x00a9fd881ace0de1
  {
    hide Round, Xor64;
    RoundMerge2Counting();
    XorMerge2Counting();
    MergeIs(0xaf982571bec7c4c7, 0xb3b4367c9fc32561, 0xf1458175e8d98ad5, 0x5edda404561e4e12,
            0x7abe3310581b5f7e, 0x00a9fd881ace0de1);
  }

  lemma RoundMerge3Counting()
    ensures Round(0x0000000000000000, 0xbb07ab3348a1553f) == 0xd14111df2fee2c54
  {
    RoundIs(0x0000000000000000, 0xbb07ab3348a1553f, 0x523ec419b4362371, 0x523ec419b4362371,
            0xda1b11b8a91f620c, 0xd14111df2fee2c54);
  }

  lemma XorMerge3Counting()
    ensures Xor64(0x00a9fd881ace0de1, 0xd14111df2fee2c54) == 0xd1e8ec57352021b5
  {
    hide Xor;
    XorIs(0x00a9fd881ace0de1, 0xd14111df2fee2c54, 0x00a9fd881ace0de1, 0xd14111df2fee2c54, 0xd1e8ec57352021b5);
  }

  lemma Merge3Counting()
    ensures MergeRound(0x00a9fd881ace0de1, 0xbb07ab3348a1553f) == 0x23ed8d871b6446d6
  {
    hide Round, Xor64;
    RoundMerge3Counting();
    XorMerge3Counting();
    MergeIs(0x00a9fd881ace0de1, 0xbb07ab3348a1553f, 0xd14111df2fee2c54, 0xd1e8ec57352021b5,
            0x9e01c30f58b19873, 0x23ed8d871b6446d6);
  }

  lemma RoundMerge4Counting()
    ensures Round(0x0000000000000000, 0x8a25bb2d27f91c07) == 0xb0030eab0626b882
  {
    RoundIs(0x0000000000000000, 0x8a25bb2d27f91c07, 0xc939b3dc49661329, 0xc939b3dc49661329,
            0x24b30994e49cd9ee, 0xb0030eab0626b882);
  }

  lemma XorMerge4Counting()
    ensures Xor64(0x23ed8d871b6446d6, 0xb0030eab0626b882) == 0x93ee832c1d42fe54
  {
    hide Xor;
    XorIs(0x23ed8d871b6446d6, 0xb0030eab0626b882, 0x23ed8d871b6446d6, 0xb0030eab0626b882, 0x93ee832c1d42fe54);
  }

  lemma Merge4Counting()
    ensures MergeRound(0x23ed8d871b6446d6, 0x8a25bb2d27f91c07) == 0x7279fc8728d114af
  {
    hide Round, Xor64;
    RoundMerge4Counting();
    XorMerge4Counting();
    MergeIs(0x23ed8d871b6446d6, 0x8a25bb2d27f91c07, 0xb0030eab0626b882, 0x93ee832c1d42fe54,
            0xec8e320f661e664c, 0x7279fc8728d114af);
  }

  lemma SumCounting()
    ensures Swapped(0xe4962682c06b5e99, 0x8000_0000_0000_0000, 2) == 0xc92c4d0580d6bd33
    ensures Swapped(0xb3b4367c9fc32561, 0x200_0000_0000_0000, 0x80) == 0xda1b3e4fe192b0d9
    ensures Swapped(0xbb07ab3348a1553f, 0x10_0000_0000_0000, 0x1000) == 0x7ab3348a1553fbb0
    ensures Swapped(0x8a25bb2d27f91c07, 0x4000_0000_0000, 0x4_0000) == 0xecb49fe4701e2896
    ensures Add(Add(Add(0xc92c4d0580d6bd33, 0xda1b3e4fe192b0d9), 0x7ab3348a1553fbb0), 0xecb49fe4701e2896) ==
            0x0aaf5fc3e7db9252
  {
  }

  lemma ConvergeCounting()
    ensures Converge(Lanes(0xe4962682c06b5e99, 0xb3b4367c9fc32561, 0xbb07ab3348a1553f, 0x8a25bb2d27f91c07)) ==
            0x7279fc8728d114af
  {
    hide MergeRound, Rotl64, Swapped, Add;
    SumCounting();
    Rotations(0xe4962682c06b5e99);
    Rotations(0xb3b4367c9fc32561);
    Rotations(0xbb07ab3348a1553f);
    Rotations(0x8a25bb2d27f91c07);
    Merge1Counting();
    Merge2Counting();
    Merge3Counting();
    Merge4Counting();
  }

  lemma RoundOfEight()
    ensures Round(0x0000000000000000, 0x2726252423222120) == 0x8e6d3b08ecfe83ad
  {
    RoundIs(0x0000000000000000, 0x2726252423222120, 0x360a92567a7098e0, 0x360a92567a7098e0,
            0x3d384c701b05492b, 0x8e6d3b08ecfe83ad);
  }

  lemma XorOfEight()
    ensures Xor64(0x7279fc8728d114dc, 0x8e6d3b08ecfe83ad) == 0xfc14c78fc42f9771
  {
    hide Xor;
    XorIs(0x7279fc8728d114dc, 0x8e6d3b08ecfe83ad, 0x7279fc8728d114dc, 0x8e6d3b08ecfe83ad, 0xfc14c78fc42f9771);
  }

  lemma WordsOfTail()
    ensures ReadLE64(Counting(32, 13), 0) == 0x2726252423222120 && ReadLE32(Counting(40, 5), 0) == 0x2b2a2928
  {
  }

  lemma Eight()
    ensures Process8(0x7279fc8728d114dc, 0x2726252423222120) == 0xcfb6a5f9aa69b007
  {
    hide Round, Xor64;
    RoundOfEight();
    XorOfEight();
    Process8Is(0x7279fc8728d114dc, 0x2726252423222120, 0x8e6d3b08ecfe83ad, 0xfc14c78fc42f9771,
               0x7e217cbb8fe0a63c, 0x49cadb81e7b701a4, 0xcfb6a5f9aa69b007);
  }

  lemma XorOfFour()
    ensures Xor64(0xcfb6a5f9aa69b007, 0x63c705e3976d4418) == 0xac71a01a3d04f41f
  {
    hide Xor;
    XorIs(0xcfb6a5f9aa69b007, 0x63c705e3976d4418, 0xcfb6a5f9aa69b007, 0x63c705e3976d4418, 0xac71a01a3d04f41f);
  }

  lemma Four()
    ensures Process4(0xcfb6a5f9aa69b007, 0x2b2a2928) == 0x4b4e6184e3b9f229
  {
    hide Xor64;
    XorOfFour();
    Process4Is(0xcfb6a5f9aa69b007, 0x2b2a2928, 0x63c705e3976d4418, 0xac71a01a3d04f41f,
               0x0d1e827a0fd638d0, 0x34f7f9d345827830, 0x4b4e6184e3b9f229);
  }

  lemma XorOfOne()
    ensures Xor64(0x4b4e6184e3b9f229, 0xd8986c17d6d9d5dc) == 0x93d60d93356027f5
  {
    hide Xor;
    XorIs(0x4b4e6184e3b9f229, 0xd8986c17d6d9d5dc, 0x4b4e6184e3b9f229, 0xd8986c17d6d9d5dc, 0x93d60d93356027f5);
  }

  lemma One()
    ensures Process1(0x4b4e6184e3b9f229, 44) == 0x31b5398971d2b352
  {
    hide Xor64;
    XorOfOne();
    Process1Is(0x4b4e6184e3b9f229, 44, 0xd8986c17d6d9d5dc, 0x93d60d93356027f5,
               0xb06c99ab013fac9e, 0x31b5398971d2b352);
  }

  lemma FirstAvalancheOfCounting()
    ensures Xor64(0x31b5398971d2b352, 0x0000000018da9cc4) == 0x31b5398969082f96
  {
    hide Xor;
    XorIs(0x31b5398971d2b352, 0x0000000018da9cc4, 0x31b5398971d2b352, 0x0000000018da9cc4, 0x31b5398969082f96);
  }

  lemma SecondAvalancheOfCounting()
    ensures Xor64(0xa12069972f6d614a, 0x0000000509034cb9) == 0xa1206992266e2df3
  {
    hide Xor;
    XorIs(0xa12069972f6d614a, 0x0000000509034cb9, 0xa12069972f6d614a, 0x0000000509034cb9, 0xa1206992266e2df3);
  }

  lemma ThirdAvalancheOfCounting()
    ensures Xor64(0x24d78f5c4e178c5b, 0x0000000024d78f5c) == 0x24d78f5c6ac00307
  {
    hide Xor;
    XorIs(0x24d78f5c4e178c5b, 0x0000000024d78f5c, 0x24d78f5c4e178c5b, 0x0000000024d78f5c, 0x24d78f5c6ac00307);
  }

  lemma AvalancheOfCounting()
    ensures Avalanche(0x31b5398971d2b352) == 0x24d78f5c6ac00307
  {
    hide Xor64;
    FirstAvalancheOfCounting();
    SecondAvalancheOfCounting();
    ThirdAvalancheOfCounting();
    AvalancheIs(0x31b5398971d2b352, 0x31b5398969082f96, 0xa12069972f6d614a, 0xa1206992266e2df3,
                0x24d78f5c4e178c5b, 0x24d78f5c6ac00307);
  }

  lemma TailOfCounting()
    ensures Tail(0x7279fc8728d114dc, Counting(32, 13)) == 0x24d78f5c6ac00307
  {
    hide Process8, Process4, Process1, Avalanche, ReadLE64, ReadLE32;
    WordsOfTail();
    Eight();
    Four();
    One();
    AvalancheOfCounting();
    assert Counting(32, 13)[8..] == Counting(40, 5);
    assert Counting(40, 5)[4..] == [44];
    assert Tail(0x4b4e6184e3b9f229, [44]) == Tail(0x31b5398971d2b352, []);
  }

  /** A stripe, eight bytes, four and one, all different, and a seed. */
  lemma OfCounting()
    ensures Hash(0x000000009e3779b1, Counting(0, 45)) == 0x24d78f5c6ac00307
  {
    hide LanesAfter, Converge, Tail;
    LanesOfCounting();
    ConvergeCounting();
    TailOfCounting();
    assert Counting(0, 45)[32..] == Counting(32, 13);
  }
}
