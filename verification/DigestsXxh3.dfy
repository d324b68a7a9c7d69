/**
 * The XXH3 digest of 241 zero bytes under a secret of counting bytes, worked out step by step: which parts of
 * the secret key the stripes, the last stripe and the final merge, and in which order the lanes are merged.
 */
module DigestsXxh3 {
  import opened Words
  import opened ExclusiveOr
  import opened Xxh3Lanes
  import opened Xxh3

  const ZEROS: Bytes64 := seq(64, _ => 0)

  function CountingSecret(): (s: Secret)
    ensures |s| == 136
  {
    Counting(0, 136)
  }

  // ---- stripes of zeros ----

  /** The word of the secret at `at`, the bytes at..at + 7: its lower and its upper half. */
  function LowHalf(at: nat): nat { 0x0101_0101 * at + 0x0302_0100 }

  function HighHalf(at: nat): nat { 0x0101_0101 * at + 0x0706_0504 }

  lemma WordAt(at: nat)
    requires at + 8 <= 136
    ensures LowHalf(at) < TWO_TO_THE_32 && HighHalf(at) < TWO_TO_THE_32
    ensures ReadLE64(CountingSecret(), at) == Join(LowHalf(at), HighHalf(at))
  {
    assert ReadLE32(CountingSecret(), at) == LowHalf(at);
    assert ReadLE32(CountingSecret(), at + 4) == HighHalf(at);
  }

  /** What a stripe of zeros adds to a lane whose key is the word at `at`. */
  function Gain(at: nat): nat { LowHalf(at) * HighHalf(at) }

  lemma ProductOfZero(at: nat)
    requires at + 8 <= 136
    ensures Product(0, ReadLE64(CountingSecret(), at)) == Gain(at)
  {
    hide Xor, ReadLE64, LowHalf, HighHalf;
    WordAt(at);
    XorZero(ReadLE64(CountingSecret(), at));
  }

  lemma ZeroWord(i: nat)
    requires i < 8
    ensures Load(ZEROS)[i] == 0
  {
  }

  lemma KeyWord(at: nat, i: nat)
    requires at + 64 <= 136 && i < 8
    ensures Load(Segment(CountingSecret(), at))[i] == ReadLE64(CountingSecret(), at + 8 * i)
  {
    var s := CountingSecret();
    ReadAgree(Segment(s, at), 0, s, at, 64, 8 * i);
    assert Segment(s, at)[0..64] == s[at..at + 64];
    hide ReadLE64;
  }

  lemma AddedZero(x: u64)
    ensures Add(x, 0) == x
  {
  }

  lemma ZeroStripe(acc: Acc, at: nat, i: nat)
    requires at + 64 <= 136 && i < 8
    ensures Gain(at + 8 * i) < TWO_TO_THE_64
    ensures Accumulate512(acc, ZEROS, Segment(CountingSecret(), at))[i] == Add(acc[i], Gain(at + 8 * i))
  {
    hide ReadLE64, Product, Gain, Load;
    ProductOfZero(at + 8 * i);
    KeyWord(at, i);
    ZeroWord(i);
    ZeroWord(Partner(i));
    AddedZero(acc[i]);
  }

  // ---- the trace ----

  function Zeros(): (data: seq<u8>)
    ensures |data| == 241
  {
    seq(241, _ => 0)
  }

  lemma TraceOfZeros()
    ensures var s := CountingSecret();
            LongTrace(s, Zeros()) ==
            Accumulated(Accumulated(Accumulated(Accumulated(Init, ZEROS, Segment(s, 0)), ZEROS, Segment(s, 8)),
                                    ZEROS, Segment(s, 16)), ZEROS, Segment(s, 65))
  {
    var s, data := CountingSecret(), Zeros();
    assert forall at :: 0 <= at <= 177 ==> Segment(data, at) == ZEROS;
    assert StripesPerBlock(s) == 9;
    hide Segment, StripesPerBlock;
    assert Absorb(s, START, data, 0) == START;
    assert Absorb(s, START, data, 1) == Core(Accumulated(Init, ZEROS, Segment(s, 0)), 1);
    assert Absorb(s, START, data, 2) ==
           Core(Accumulated(Accumulated(Init, ZEROS, Segment(s, 0)), ZEROS, Segment(s, 8)), 2);
    assert Absorb(s, START, data, 3) ==
           Core(Accumulated(Accumulated(Accumulated(Init, ZEROS, Segment(s, 0)), ZEROS, Segment(s, 8)),
                            ZEROS, Segment(s, 16)), 3);
  }

  lemma LaneOfZeros(i: nat)
    requires i < 8
    ensures Gain(8 * i) < TWO_TO_THE_64 && Gain(8 + 8 * i) < TWO_TO_THE_64
    ensures Gain(16 + 8 * i) < TWO_TO_THE_64 && Gain(65 + 8 * i) < TWO_TO_THE_64
    ensures Lanes(LongTrace(CountingSecret(), Zeros()))[i] ==
            Add(Add(Add(Add(INIT_ACC[i], Gain(8 * i)), Gain(8 + 8 * i)), Gain(16 + 8 * i)), Gain(65 + 8 * i))
  {
    hide LongTrace, Gain, Accumulate512, Add, Segment;
    TraceOfZeros();
    var s := CountingSecret();
    var a1 := Accumulate512(INIT_ACC, ZEROS, Segment(s, 0));
    var a2 := Accumulate512(a1, ZEROS, Segment(s, 8));
    var a3 := Accumulate512(a2, ZEROS, Segment(s, 16));
    ZeroStripe(INIT_ACC, 0, i);
    ZeroStripe(a1, 8, i);
    ZeroStripe(a2, 16, i);
    ZeroStripe(a3, 65, i);
    assert Lanes(Init) == INIT_ACC;
  }

  lemma GainsOfStripes()
    ensures Gain(0) == 0x001520221c0d0400
    ensures Gain(8) == 0x00a631a3fd5dd460
    ensures Gain(16) == 0x01b844a7e02fa540
    ensures Gain(24) == 0x034b592dc48276a0
    ensures Gain(32) == 0x055f6f35aa564880
    ensures Gain(40) == 0x07f486bf91ab1ae0
    ensures Gain(48) == 0x0b0a9fcb7a80edc0
    ensures Gain(56) == 0x0ea1ba5964d7c120
    ensures Gain(64) == 0x12b9d66950af9500
    ensures Gain(72) == 0x1752f3fb3e086960
  {
  }

  lemma GainsOfLast()
    ensures Gain(65) == 0x1345ec067245a185
    ensures Gain(73) == 0x17ef29c89fce95f5
    ensures Gain(81) == 0x1d19690cced88ae5
    ensures Gain(89) == 0x22c4a9d2ff638055
    ensures Gain(97) == 0x28f0ec1b316f7645
    ensures Gain(105) == 0x2f9e2fe564fc6cb5
    ensures Gain(113) == 0x36cc75319a0a63a5
    ensures Gain(121) == 0x3e7bbbffd0995b15
  {
  }

  lemma LowerSums()
    ensures Add(Add(Add(Add(0x00000000c2b2ae3d, 0x001520221c0d0400), 0x00a631a3fd5dd460),
                    0x01b844a7e02fa540), 0x1345ec067245a185) == 0x15b982752e92cd62
    ensures Add(Add(Add(Add(0x9e3779b185ebca87, 0x00a631a3fd5dd460), 0x01b844a7e02fa540),
                    0x034b592dc48276a0), 0x17ef29c89fce95f5) == 0xbbd072f3c7ca50bc
    ensures Add(Add(Add(Add(0xc2b2ae3d27d4eb4f, 0x01b844a7e02fa540), 0x034b592dc48276a0),
                    0x055f6f35aa564880), 0x1d19690cced88ae5) == 0xea2f245545b5da94
    ensures Add(Add(Add(Add(0x165667b19e3779f9, 0x034b592dc48276a0), 0x055f6f35aa564880),
                    0x07f486bf91ab1ae0), 0x22c4a9d2ff638055) == 0x49ba60a79e1ed44e
  {
  }

  lemma UpperSums()
    ensures Add(Add(Add(Add(0x85ebca77c2b2ae63, 0x055f6f35aa564880), 0x07f486bf91ab1ae0),
                    0x0b0a9fcb7a80edc0), 0x28f0ec1b316f7645) == 0xc73b4c53aaa475c8
    ensures Add(Add(Add(Add(0x0000000085ebca77, 0x07f486bf91ab1ae0), 0x0b0a9fcb7a80edc0),
                    0x0ea1ba5964d7c120), 0x2f9e2fe564fc6cb5) == 0x513f10ca5bec00ec
    ensures Add(Add(Add(Add(0x27d4eb2f165667c5, 0x0b0a9fcb7a80edc0), 0x0ea1ba5964d7c120),
                    0x12b9d66950af9500), 0x36cc75319a0a63a5) == 0x8b0790eee0690f4a
    ensures Add(Add(Add(Add(0x000000009e3779b1, 0x0ea1ba5964d7c120), 0x12b9d66950af9500),
                    0x1752f3fb3e086960), 0x3e7bbbffd0995b15) == 0x772a40be62609446
  {
  }

  lemma Lane0()
    ensures Lanes(LongTrace(CountingSecret(), Zeros()))[0] == 0x15b982752e92cd62
  {
    hide LongTrace, Lanes, Gain, Add;
    LaneOfZeros(0);
    GainsOfStripes();
    GainsOfLast();
    LowerSums();
    assert INIT_ACC[0] == 0x00000000c2b2ae3d;
  }

  lemma Lane1()
    ensures Lanes(LongTrace(CountingSecret(), Zeros()))[1] == 0xbbd072f3c7ca50bc
  {
    hide LongTrace, Lanes, Gain, Add;
    LaneOfZeros(1);
    GainsOfStripes();
    GainsOfLast();
    LowerSums();
    assert INIT_ACC[1] == 0x9e3779b185ebca87;
  }

  lemma Lane2()
    ensures Lanes(LongTrace(CountingSecret(), Zeros()))[2] == 0xea2f245545b5da94
  {
    hide LongTrace, Lanes, Gain, Add;
    LaneOfZeros(2);
    GainsOfStripes();
    GainsOfLast();
    LowerSums();
    assert INIT_ACC[2] == 0xc2b2ae3d27d4eb4f;
  }

  lemma Lane3()
    ensures Lanes(LongTrace(CountingSecret(), Zeros()))[3] == 0x49ba60a79e1ed44e
  {
    hide LongTrace, Lanes, Gain, Add;
    LaneOfZeros(3);
    GainsOfStripes();
    GainsOfLast();
    LowerSums();
    assert INIT_ACC[3] == 0x165667b19e3779f9;
  }

  lemma Lane4()
    ensures Lanes(LongTrace(CountingSecret(), Zeros()))[4] == 0xc73b4c53aaa475c8
  {
    hide LongTrace, Lanes, Gain, Add;
    LaneOfZeros(4);
    GainsOfStripes();
    GainsOfLast();
    UpperSums();
    assert INIT_ACC[4] == 0x85ebca77c2b2ae63;
  }

  lemma Lane5()
    ensures Lanes(LongTrace(CountingSecret(), Zeros()))[5] == 0x513f10ca5bec00ec
  {
    hide LongTrace, Lanes, Gain, Add;
    LaneOfZeros(5);
    GainsOfStripes();
    GainsOfLast();
    UpperSums();
    assert INIT_ACC[5] == 0x0000000085ebca77;
  }

  lemma Lane6()
    ensures Lanes(LongTrace(CountingSecret(), Zeros()))[6] == 0x8b0790eee0690f4a
  {
    hide LongTrace, Lanes, Gain, Add;
    LaneOfZeros(6);
    GainsOfStripes();
    GainsOfLast();
    UpperSums();
    assert INIT_ACC[6] == 0x27d4eb2f165667c5;
  }

  lemma Lane7()
    ensures Lanes(LongTrace(CountingSecret(), Zeros()))[7] == 0x772a40be62609446
  {
    hide LongTrace, Lanes, Gain, Add;
    LaneOfZeros(7);
    GainsOfStripes();
    GainsOfLast();
    UpperSums();
    assert INIT_ACC[7] == 0x000000009e3779b1;
  }

  // ---- the merge ----

  lemma MergeWord(i: nat)
    requires i < 8
    ensures ReadLE64(Segment(CountingSecret(), 11), 8 * i) == ReadLE64(CountingSecret(), 11 + 8 * i)
  {
    hide ReadLE64, Segment;
    KeyWord(11, i);
  }

  lemma Xor0()
    ensures Xor64(0x15b982752e92cd62, ReadLE64(Segment(CountingSecret(), 11), 0)) == 0x07a8927a209fc169
  {
    hide Xor, ReadLE64, Segment;
    MergeWord(0);
    WordAt(11);
    XorIs(0x15b982752e92cd62, 0x1211100f0e0d0c0b, 0x15b982752e92cd62, 0x1211100f0e0d0c0b, 0x07a8927a209fc169);
  }

  lemma Xor1()
    ensures Xor64(0xbbd072f3c7ca50bc, ReadLE64(Segment(CountingSecret(), 11), 8)) == 0xa1c96ae4d1df44af
  {
    hide Xor, ReadLE64, Segment;
    MergeWord(1);
    WordAt(19);
    XorIs(0xbbd072f3c7ca50bc, 0x1a19181716151413, 0xbbd072f3c7ca50bc, 0x1a19181716151413, 0xa1c96ae4d1df44af);
  }

  lemma Xor2()
    ensures Xor64(0xea2f245545b5da94, ReadLE64(Segment(CountingSecret(), 11), 16)) == 0xc80e044a5ba8c68f
  {
    hide Xor, ReadLE64, Segment;
    MergeWord(2);
    WordAt(27);
    XorIs(0xea2f245545b5da94, 0x2221201f1e1d1c1b, 0xea2f245545b5da94, 0x2221201f1e1d1c1b, 0xc80e044a5ba8c68f);
  }

  lemma Xor3()
    ensures Xor64(0x49ba60a79e1ed44e, ReadLE64(Segment(CountingSecret(), 11), 24)) == 0x63934880b83bf06d
  {
    hide Xor, ReadLE64, Segment;
    MergeWord(3);
    WordAt(35);
    XorIs(0x49ba60a79e1ed44e, 0x2a29282726252423, 0x49ba60a79e1ed44e, 0x2a29282726252423, 0x63934880b83bf06d);
  }

  lemma Xor4()
    ensures Xor64(0xc73b4c53aaa475c8, ReadLE64(Segment(CountingSecret(), 11), 32)) == 0xf50a7c7c848959e3
  {
    hide Xor, ReadLE64, Segment;
    MergeWord(4);
    WordAt(43);
    XorIs(0xc73b4c53aaa475c8, 0x3231302f2e2d2c2b, 0xc73b4c53aaa475c8, 0x3231302f2e2d2c2b, 0xf50a7c7c848959e3);
  }

  lemma Xor5()
    ensures Xor64(0x513f10ca5bec00ec, ReadLE64(Segment(CountingSecret(), 11), 40)) == 0x6b0628fd6dd934df
  {
    hide Xor, ReadLE64, Segment;
    MergeWord(5);
    WordAt(51);
    XorIs(0x513f10ca5bec00ec, 0x3a39383736353433, 0x513f10ca5bec00ec, 0x3a39383736353433, 0x6b0628fd6dd934df);
  }

  lemma Xor6()
    ensures Xor64(0x8b0790eee0690f4a, ReadLE64(Segment(CountingSecret(), 11), 48)) == 0xc946d0d1de543371
  {
    hide Xor, ReadLE64, Segment;
    MergeWord(6);
    WordAt(59);
    XorIs(0x8b0790eee0690f4a, 0x4241403f3e3d3c3b, 0x8b0790eee0690f4a, 0x4241403f3e3d3c3b, 0xc946d0d1de543371);
  }

  lemma Xor7()
    ensures Xor64(0x772a40be62609446, ReadLE64(Segment(CountingSecret(), 11), 56)) == 0x3d6308f92425d005
  {
    hide Xor, ReadLE64, Segment;
    MergeWord(7);
    WordAt(67);
    XorIs(0x772a40be62609446, 0x4a49484746454443, 0x772a40be62609446, 0x4a49484746454443, 0x3d6308f92425d005);
  }

  lemma FoldIs(x: u64, y: u64, low: u64, high: u64, folded: u64)
    requires x * y == low + high * TWO_TO_THE_64 && Xor64(low, high) == folded
    ensures Mul128Fold64(x, y) == folded
  {
    hide Xor64, Mult64To128;
    var product := Mult64To128(x, y);
    SameParts(TWO_TO_THE_64, product.1, product.0, high, low);
  }

  lemma Fold0()
    ensures Mul128Fold64(0x07a8927a209fc169, 0xa1c96ae4d1df44af) == 0x6c2f2f1685747313
  {
    hide Xor, Mult64To128;
    XorIs(0x68f825baf00c1ac7, 0x04d70aac757869d4, 0x68f825baf00c1ac7, 0x04d70aac757869d4, 0x6c2f2f1685747313);
    FoldIs(0x07a8927a209fc169, 0xa1c96ae4d1df44af, 0x68f825baf00c1ac7, 0x04d70aac757869d4, 0x6c2f2f1685747313);
  }

  lemma Fold1()
    ensures Mul128Fold64(0xc80e044a5ba8c68f, 0x63934880b83bf06d) == 0x138af3ee0ba34538
  {
    hide Xor, Mult64To128;
    XorIs(0x5e5a77b3cbf79ae3, 0x4dd0845dc054dfdb, 0x5e5a77b3cbf79ae3, 0x4dd0845dc054dfdb, 0x138af3ee0ba34538);
    FoldIs(0xc80e044a5ba8c68f, 0x63934880b83bf06d, 0x5e5a77b3cbf79ae3, 0x4dd0845dc054dfdb, 0x138af3ee0ba34538);
  }

  lemma Fold2()
    ensures Mul128Fold64(0xf50a7c7c848959e3, 0x6b0628fd6dd934df) == 0xebf09bee1c1437b3
  {
    hide Xor, Mult64To128;
    XorIs(0x8d81dc6d325268bd, 0x667147832e465f0e, 0x8d81dc6d325268bd, 0x667147832e465f0e, 0xebf09bee1c1437b3);
    FoldIs(0xf50a7c7c848959e3, 0x6b0628fd6dd934df, 0x8d81dc6d325268bd, 0x667147832e465f0e, 0xebf09bee1c1437b3);
  }

  lemma Fold3()
    ensures Mul128Fold64(0xc946d0d1de543371, 0x3d6308f92425d005) == 0xec999e3ccf33b739
  {
    hide Xor, Mult64To128;
    XorIs(0xdcda230e14c5d135, 0x3043bd32dbf6660c, 0xdcda230e14c5d135, 0x3043bd32dbf6660c, 0xec999e3ccf33b739);
    FoldIs(0xc946d0d1de543371, 0x3d6308f92425d005, 0xdcda230e14c5d135, 0x3043bd32dbf6660c, 0xec999e3ccf33b739);
  }

  lemma Sums()
    ensures 241 * PRIME64_1 % TWO_TO_THE_64 == 0xf239901f12f9a917
    ensures Add(Add(Add(Add(0xf239901f12f9a917, 0x6c2f2f1685747313), 0x138af3ee0ba34538),
                    0xebf09bee1c1437b3), 0xec999e3ccf33b739) == 0x4a7ded4e8f59504e
  {
  }

  lemma MergedRounds(acc: Acc)
    requires acc[0] == 0x15b982752e92cd62 && acc[1] == 0xbbd072f3c7ca50bc
    requires acc[2] == 0xea2f245545b5da94 && acc[3] == 0x49ba60a79e1ed44e
    requires acc[4] == 0xc73b4c53aaa475c8 && acc[5] == 0x513f10ca5bec00ec
    requires acc[6] == 0x8b0790eee0690f4a && acc[7] == 0x772a40be62609446
    ensures MergeRounds(acc, Segment(CountingSecret(), 11), 0xf239901f12f9a917, 4) == 0x4a7ded4e8f59504e
  {
    hide Mul128Fold64, Xor64, ReadLE64, Add, Segment;
    Xor0();
    Xor1();
    Fold0();
    Xor2();
    Xor3();
    Fold1();
    Xor4();
    Xor5();
    Fold2();
    Xor6();
    Xor7();
    Fold3();
    var s, start := Segment(CountingSecret(), 11), 0xf239901f12f9a917;
    var r1 := Add(start, 0x6c2f2f1685747313);
    var r2 := Add(r1, 0x138af3ee0ba34538);
    var r3 := Add(r2, 0xebf09bee1c1437b3);
    assert MergeRounds(acc, s, start, 1) == r1;
    assert MergeRounds(acc, s, start, 2) == r2;
    assert MergeRounds(acc, s, start, 3) == r3;
    Sums();
  }

  lemma AvalancheXors()
    ensures Xor64(0x4a7ded4e8f59504e, 0x4a7ded4e8f59504e / 0x20_0000_0000) == 0x4a7ded4e8d0abf24
    ensures Xor64(0xf4a8a0bc8c87ee04, 0xf4a8a0bc8c87ee04 / 0x1_0000_0000) == 0xf4a8a0bc782f4eb8
  {
    hide Xor;
    XorIs(0x4a7ded4e8f59504e, 0x000000000253ef6a, 0x4a7ded4e8f59504e, 0x000000000253ef6a, 0x4a7ded4e8d0abf24);
    XorIs(0xf4a8a0bc8c87ee04, 0x00000000f4a8a0bc, 0xf4a8a0bc8c87ee04, 0x00000000f4a8a0bc, 0xf4a8a0bc782f4eb8);
  }

  lemma Avalanched()
    ensures Avalanche(0x4a7ded4e8f59504e) == 0xf4a8a0bc782f4eb8
  {
    hide Xor64;
    AvalancheXors();
    assert 0x4a7ded4e8d0abf24 * 0x165667919E3779F9 % TWO_TO_THE_64 == 0xf4a8a0bc8c87ee04;
  }

  lemma OfZeros()
    ensures LongHash(CountingSecret(), Zeros()) == 0xf4a8a0bc782f4eb8
  {
    hide LongTrace, Lanes, MergeRounds, Avalanche, Segment;
    Lane0();
    Lane1();
    Lane2();
    Lane3();
    Lane4();
    Lane5();
    Lane6();
    Lane7();
    var acc := Lanes(LongTrace(CountingSecret(), Zeros()));
    MergedRounds(acc);
    Sums();
    Avalanched();
  }
}
