# Verified models of AFL++ cores

This project models the parts of AFL++ whose correctness rests on an argument rather than on
reading one function, and proves what they are for.

- **xxHash** (`Xxh3*.dfy`, `Xxh64*.dfy`, `Xxh32.dfy`, `Digests*.dfy`). Streaming over any chunking equals one-call
  hashing. The XXH3 state is a class with its buffer, accumulators and cached secret, updated in
  place; ghost fields say what was fed, and a trace of accumulate and scramble steps ties the
  lanes in memory to a stripe-by-stripe definition. The scalar and the vector kernels are proved
  equal, and the portable 64x64 multiplication exact. XXH64 keeps apart inputs that differ in one
  word of the tail (`Xxh64Distinct.dfy`), and digests of fixed inputs are worked out.
- **Switch lowering** (`Ir.dfy`, `SwitchCases.dfy`, `PhiMoves.dfy`, `SwitchLowering.dfy`,
  `SplitSwitches.dfy`). The pass over a small IR with phi nodes: it terminates, its assertions
  hold, whole runs keep their meaning, and phi entries are conserved.
- **Compare unrolling** (`CompareChain.dfy`). The chain that replaces a library compare, against
  the library meaning of sections 7.24.4.1, 7.24.4.2 and 7.24.4.4 of ISO/IEC 9899:2011, with the
  exact conditions where the pass does not keep it.
- **Pool list** (`PoolList.dfy`). A circular doubly linked list over a preallocated pool.
- **Fork server and persistent loop** (`ForkServer.dfy`). A state machine over all interleavings
  of server, child and kills, and the imperative server and child proved to be parts of its runs.
- **Edge counters and comparison log** (`EdgeMap.dfy`, `CmpLog.dfy`).
- **Coverage novelty** (`Coverage.dfy`, `Coverage64.dfy`, `Coverage32.dfy`, `CoverageWidths.dfy`,
  `CountClasses.dfy`).
  The word-wise and vector forms, with any class table, against a byte-wise specification over the
  history of traces. `CountClasses.dfy` has the table that the fuzzer builds, and what it misses.
- **Block pruning** (`BlockPruning.dfy`). Dominance by paths, and that the pruned instrumentation
  still determines which blocks a run went through.
- **Growth and random numbers** (`Growth.dfy`, `Rand.dfy`).

`Words.dfy` holds machine words as bounded integers, and `ExclusiveOr.dfy` proves their exclusive or
to be that of bit vectors. `dafny verify dfyconfig.toml` checks
everything.

Where the code and its documentation disagree, the model follows the code:

- `afl_realloc` is documented to return NULL and free for sizes below 1, and to make room for more
  than was asked. The code does neither: a size of 0 is a request like any other
  (`RequestNothing`), and a request of 56 gets 56 (`NoSpareByte`). `GetRoom` says when there is room
  for what was asked, and when for more.
- `next_pow2` is documented for all sizes. It stops at a shift by 16, so that beyond 2^32 it can
  yield numbers that are no powers of two, or fail to give 0 on overflow; `NextPow2IsRoundUpIff`
  and `NextPow2WrapsIff` say when.
- `rand_below` is documented to have a slight bias. With the 64-bit generator the rejection leaves
  none; with the 32-bit generator it rejects nothing and the bias is there.
- The class table of the fuzzer (`count_class_lookup8`) is meant to have a class for every count, as
  the classes shown to users do. Its initialiser repeats the last two classes 32 and 64 times where
  96 and 128 entries follow, so that the counts from 64 to 127 and from 192 on have none. Cells with
  such counts go unnoticed by `skim` and `has_new_bits`, although new tuples are documented to give
  2; `VerdictOnCounts` and `FirstHitNoticedIff` say exactly what is noticed, and
  `SixtyFourHitsUnnoticed` gives an input.
- `bcmp` is selected by the compare pass but treated as a string compare, and a constant operand of
  `memcmp` can be known only up to a NUL; `BcmpExactly` and `MemcmpExactly` say when the meaning is
  kept, and `BcmpFails` and `MemcmpFails` give calls for which it is not.
- The pruning of the LTO pass is meant to lose nothing, and loses nothing where a live block is entered only
  from blocks that control can reach (`FootprintDeterminesBlocks`). The pass does not remove
  unreachable blocks before it prunes, and such a predecessor can make it skip both arms of a branch:
  `UnreachablePredecessorsFail` gives the function and two runs.
- `__AFL_LOOP(0)` runs 2^32 inputs per process, since the countdown wraps.

## Model

| member | source | states |
|---|---|---|
| Xxh3Stream.HashInPieces | AFLplusplus/include/xxhash.h:4606-4882 | For every mode, every input and every way of cutting it, reset, updates and digest on a state with any past give the one-call hash of the whole input. |
| Xxh3Stream.State.constructor | AFLplusplus/include/xxhash.h:4606-4614 | A created state has a zero seed and otherwise arbitrary content, which is enough for every reset. |
| Xxh3Stream.State.Reset | AFLplusplus/include/xxhash.h:4657-4664 | From any created state: nothing fed, default mode, ready. |
| Xxh3Stream.State.ResetWithSecret | AFLplusplus/include/xxhash.h:4666-4675 | Fails exactly for a missing secret or one below 136 bytes; either way the cached secret still belongs to the recorded seed. |
| Xxh3Stream.State.ResetWithSeed | AFLplusplus/include/xxhash.h:4677-4687 | Over any sequence of resets a non-zero recorded seed comes with the secret derived from it, so skipping the derivation for an equal seed is sound. |
| Xxh3Stream.State.Update | AFLplusplus/include/xxhash.h:4730-4823 | Appends to the input fed so far, whatever is buffered: at least one byte stays held, the accumulators have absorbed exactly the stripes before it, and with less than a stripe held the end of the buffer completes the last 64 bytes. A missing input changes nothing. |
| Xxh3Stream.State.FillAndTake | AFLplusplus/include/xxhash.h:4766-4781 | Completing a partly full buffer consumes exactly the next four stripes of the input. |
| Xxh3Stream.State.TakeDirect | AFLplusplus/include/xxhash.h:4785-4803 | Whole buffers are consumed straight from the input until 1 to 256 bytes are left, and the stripe before the rest is kept at the buffer's end. |
| Xxh3Stream.State.Digest | AFLplusplus/include/xxhash.h:4862-4882 | The one-call hash of all that was fed, for every length below 2^64, without changing the state. |
| Xxh3Stream.State.DigestLong | AFLplusplus/include/xxhash.h:4825-4860 | On a copy of the accumulators: the lanes that hashing the whole input in one go leaves. |
| Xxh3Stream.State.HeldLastStripe | AFLplusplus/include/xxhash.h:4841-4858 | The last stripe, put together from both ends of the buffer when fewer than 64 bytes are held, is the last 64 bytes of the input. |
| Xxh3Stream.State.DigestAllButLast | AFLplusplus/include/xxhash.h:4834-4840 | On the copy: the lanes after all stripes that more input follows, those held in the buffer taken in. |
| Xxh3Stream.ConsumeStripes | AFLplusplus/include/xxhash.h:4694-4724 | Equals absorbing the stripes one after the other, scrambling at the block end, which is passed at most once; the position in the block stays below the stripes per block. |
| Xxh3Stream.BufferedAppend | AFLplusplus/include/xxhash.h:4751-4757 | Appending to the buffer keeps the relation of its content, the stale end included, to the input. |
| Xxh3Stream.BufferedRest | AFLplusplus/include/xxhash.h:4799-4809 | Buffering what is left after whole buffers were consumed keeps that relation, the kept stripe at the end included. |
| Xxh3Stream.LastStripe | AFLplusplus/include/xxhash.h:4841-4858 | The relation yields the last 64 bytes of the input in both cases of the digest. |
| Xxh3.AbsorbSplit | AFLplusplus/include/xxhash.h:4694-4724 | Absorbing m + n stripes is absorbing m, then n from where the block position stands. |
| Xxh3.AbsorbAgree | AFLplusplus/include/xxhash.h:4275-4320 | What follows the absorbed stripes has no influence. |
| Xxh3.RunIsAbsorb | AFLplusplus/include/xxhash.h:4258-4273 | A run of stripes inside a block is absorbing them, up to the scramble at its end. |
| Xxh3.HashLongInternalLoop | AFLplusplus/include/xxhash.h:4275-4320 | The nested loops over blocks and stripes leave the lanes of the stripe-by-stripe definition. |
| Xxh3.LastBlock | AFLplusplus/include/xxhash.h:4297-4318 | The partial block and the last stripe end the definition's trace. |
| Xxh3.HashLong64 | AFLplusplus/include/xxhash.h:4369-4390 | The merged hash of those lanes and the length. |
| Xxh3Lanes.MergeAccsInMemory | AFLplusplus/include/xxhash.h:4322-4358 | The loop folds the four pairs of lanes, each with its two words of the secret, into the start value, and ends with the avalanche. |
| DigestsXxh3.OfZeros | AFLplusplus/include/xxhash.h:4275-4390 | The digest of 241 zero bytes under the secret 0, 1, ..., 135 is 0xf4a8a0bc782f4eb8: which parts of the secret key the stripes, the last one and the merge, and in which order lanes are merged. |
| Xxh3.Hash64 | AFLplusplus/include/xxhash.h:4477-4527 | Picks the secret by mode: a seed of zero is the default mode, another derives its secret; up to 240 bytes go to the short-input function. |
| Xxh3.StripesPerBlock | AFLplusplus/include/xxhash.h:4280-4281 | A secret of at least 136 bytes gives at least nine stripes a block, and all their keys lie within it. |
| Xxh3Lanes.Mult64To128 | AFLplusplus/include/xxhash.h:3081-3095 | No intermediate sum overflows 64 bits, and the two words are the exact product. |
| Xxh3Lanes.Mult32 | AFLplusplus/include/xxhash.h:3081-3090 | The product of two halves leaves room for two more 32-bit terms. |
| Xxh3Lanes.AccumulateScalar | AFLplusplus/include/xxhash.h:4082-4103 | In place, round by round with its i ^ 1 swap: the update of all lanes at once. |
| Xxh3Lanes.PartialNext | AFLplusplus/include/xxhash.h:4094-4102 | One round changes exactly the lane and its partner. |
| Xxh3Lanes.AccumulateVector | AFLplusplus/include/xxhash.h:3774-3813 | The shuffling vector form computes the same eight lanes. |
| Xxh3Lanes.ShuffledHalves | AFLplusplus/include/xxhash.h:3798-3809 | The dword shuffles pair low with high halves, and swap the lanes of a pair. |
| Xxh3Lanes.ScrambleScalar | AFLplusplus/include/xxhash.h:4105-4125 | In place: every lane scrambled with its key word. |
| Xxh3Lanes.ScrambleVector | AFLplusplus/include/xxhash.h:3817-3851 | The vector form with its split product scrambles every lane as the scalar form does. |
| Xxh3Lanes.SplitProduct | AFLplusplus/include/xxhash.h:3712-3717 | Low product plus shifted high product is the product modulo 2^64. |
| Xxh3Lanes.DerivedBytes | AFLplusplus/include/xxhash.h:4127-4196 | Each byte of the derived secret is that of its word moved by the seed. |
| Words.ReadBack | AFLplusplus/include/xxhash.h:3465-3471 | A word written to memory by its bytes is read back as the same word. |
| Xxh3Lanes.InitCustomSecretScalar | AFLplusplus/include/xxhash.h:4127-4196 | Writes the derived secret. |
| Xxh3Lanes.InitCustomSecretVector | AFLplusplus/include/xxhash.h:3853-3893 | Adding one vector of the seed and its negation writes the same secret. |
| Xxh64.HashInPieces | AFLplusplus/include/xxhash.h:2312-2437 | However the input is cut, reset, updates and digest give its hash, for every total length below 2^64. |
| Xxh64.State.Reset | AFLplusplus/include/xxhash.h:2312-2326 | Nothing fed, lanes initial, whatever was there before. |
| Xxh64.State.Update | AFLplusplus/include/xxhash.h:2328-2404 | Appends to the input fed so far; the lanes have taken exactly its whole stripes and the buffer holds the rest. A missing input changes nothing. |
| Xxh64.State.FillAndTake | AFLplusplus/include/xxhash.h:2353-2363 | A partly full buffer is completed and taken as one stripe. |
| Xxh64.State.Digest | AFLplusplus/include/xxhash.h:2406-2437 | The hash of all that was fed, for every total length below 2^64. |
| Xxh64.OneShot | AFLplusplus/include/xxhash.h:2262-2288 | The one-call function computes the stripe-by-stripe definition. |
| Xxh64.WholeStripes | AFLplusplus/include/xxhash.h:2205-2260 | The loop of the one-call function takes all whole stripes and stops where the tail begins. |
| Xxh64.Finalize | AFLplusplus/include/xxhash.h:2010-2203 | The switch on the length modulo the stripe, with its groups of labels that fall through, mixes in the tail by words and bytes as the recursive definition does. |
| Xxh64.FinalizeRerolled | AFLplusplus/include/xxhash.h:2010-2203 | So do the loops that replace the switch where XXH_REROLL is set. |
| Xxh64.LanesAgree | AFLplusplus/include/xxhash.h:2205-2260 | Lanes depend on the stripes taken alone. |
| Xxh32.HashInPieces | AFLplusplus/include/xxhash.h:1617-1757 | However the input is cut, reset, updates and digest give its hash, for every total length, past 2^32 too. |
| Xxh32.State.Reset | AFLplusplus/include/xxhash.h:1617-1631 | Nothing fed, lanes initial, whatever was there before. |
| Xxh32.State.Update | AFLplusplus/include/xxhash.h:1633-1720 | Appends to the input fed so far; the lanes have taken exactly its whole stripes and the buffer holds the rest. A missing input changes nothing. |
| Xxh32.State.CountOn | AFLplusplus/include/xxhash.h:1649-1651 | large_len is set exactly when the true length is at least 16, even after the 32-bit total has wrapped. |
| Xxh32.State.FillAndTake | AFLplusplus/include/xxhash.h:1660-1679 | A partly full buffer is completed and taken as one stripe. |
| Xxh32.State.Digest | AFLplusplus/include/xxhash.h:1722-1757 | The hash of all that was fed, for every total length, past 2^32 too. |
| Xxh32.OneShot | AFLplusplus/include/xxhash.h:1568-1595 | The one-call function computes the stripe-by-stripe definition. |
| Xxh32.WholeStripes | AFLplusplus/include/xxhash.h:1515-1566 | The loop of the one-call function takes all whole stripes and stops where the tail begins. |
| Xxh32.Finalize | AFLplusplus/include/xxhash.h:1398-1513 | The switch on the length modulo the stripe, with its groups of labels that fall through, mixes in the tail by words and bytes as the recursive definition does. |
| Xxh32.FinalizeRerolled | AFLplusplus/include/xxhash.h:1398-1513 | So do the loops that replace the switch where XXH_REROLL is set. |
| Xxh32.LanesAgree | AFLplusplus/include/xxhash.h:1515-1566 | Lanes depend on the stripes taken alone. |
| Xxh64Distinct.UnitTells | AFLplusplus/include/xxhash.h:2010-2203 | For every seed, inputs of equal length that differ only within one word of eight bytes, one of four or one byte of the tail, as the switch takes them, have different hashes. |
| Xxh64Distinct.OneWordTells | AFLplusplus/include/xxhash.h:2262-2288 | For every seed, different inputs of the same length of 1, 4 or 8 bytes have different hashes. |
| Xxh64Distinct.SeedTells | AFLplusplus/include/xxhash.h:2205-2260 | Inputs without a whole stripe have a different hash for every seed. |
| Xxh64Distinct.TailInjective | AFLplusplus/include/xxhash.h:2010-2203 | With the same bytes to come, different intermediate hashes end differently. |
| Xxh64Distinct.Process8Injective | AFLplusplus/include/xxhash.h:2032-2040 | Of the hash and the word mixed in, each is determined by the result and the other. |
| Xxh64Distinct.Process4Injective | AFLplusplus/include/xxhash.h:2023-2030 | The same for four bytes. |
| Xxh64Distinct.Process1Injective | AFLplusplus/include/xxhash.h:2015-2021 | The same for one byte. |
| Xxh64Distinct.AvalancheInjective | AFLplusplus/include/xxhash.h:1996-2006 | No two words have the same avalanche. |
| Digests64.OfEmpty | AFLplusplus/include/xxhash.h:2205-2260 | The digest of the empty input with seed 0 is 0xef46db3751d8e999. |
| Digests64.OfCounting | AFLplusplus/include/xxhash.h:2205-2260 | The digest of the bytes 0 to 44 with seed 0x9e3779b1 is 0x24d78f5c6ac00307: a stripe, eight bytes, four and one. |
| Digests32.OfEmpty | AFLplusplus/include/xxhash.h:1515-1566 | The digest of the empty input with seed 0 is 0x02cc5d05. |
| Digests32.OfCounting | AFLplusplus/include/xxhash.h:1515-1566 | The digest of the bytes 0 to 22 with seed 0x9e3779b1 is 0xf2699654: a stripe, four bytes and three more. |
| SplitSwitches.Split | AFLplusplus/instrumentation/split-switches-pass.so.cc:300-410 | Afterwards every switch that has cases is on at most 8 bits; an original block ends in a jump instead of its switch exactly if that had cases and more than 8 bits, and else as before; from every original block and for all values control goes where it went, each phi entered finding the value it found; and over the whole pass the phi entries of the lowered switches, in place and with their values, have moved one to each edge of a new block while all other blocks keep theirs. |
| SplitSwitches.Narrow | AFLplusplus/instrumentation/split-switches-pass.so.cc:345-357 | What is lowered and what is left, in terms of width and number of cases. |
| SplitSwitches.RunsAgree | AFLplusplus/instrumentation/split-switches-pass.so.cc:300-410 | Whole runs: the same original blocks in the same order, with the same phi values. |
| SplitSwitches.LowerSwitch | AFLplusplus/instrumentation/split-switches-pass.so.cc:335-407 | One switch: the tree and the new default replace it, for distinct cases of 9 to 64 bits. |
| SplitSwitches.EntriesConserved | AFLplusplus/instrumentation/split-switches-pass.so.cc:387-407 | After lowering no phi of a target or the default names the original block; every new edge has exactly one entry, with the value the old edges had, also when cases and default share a block. |
| SplitSwitches.TreeArrives | AFLplusplus/instrumentation/split-switches-pass.so.cc:381-386 | Leaving the block, control reaches the switch's target from a new block that has an edge to it. |
| SplitSwitches.FinallyMoved | AFLplusplus/instrumentation/split-switches-pass.so.cc:389-407 | With the default's entry moved last, all entries of the block have moved. |
| SplitSwitches.LoweredBlockStep | AFLplusplus/instrumentation/split-switches-pass.so.cc:335-407 | Lowering one block keeps what the function so far does from it. |
| SplitSwitches.OtherBlockStep | AFLplusplus/instrumentation/split-switches-pass.so.cc:335-407 | Lowering one block also keeps what the function so far does from every other block. |
| SplitSwitches.PendingStep | AFLplusplus/instrumentation/split-switches-pass.so.cc:335-407 | A switch still on the worklist stays as it was, with its phi entries. |
| SplitSwitches.Collect | AFLplusplus/instrumentation/split-switches-pass.so.cc:306-327 | The worklist is exactly the switches that have cases, of any width, in block order. |
| SplitSwitches.ConservedStep | AFLplusplus/instrumentation/split-switches-pass.so.cc:335-407 | Lowering one switch keeps the account of moved entries and untouched terminators for the whole function. |
| SplitSwitches.EntriesStep | AFLplusplus/instrumentation/split-switches-pass.so.cc:387-407 | In each phi the entries moved before stay one for each edge, and those of the switch now lowered join them. |
| SplitSwitches.LoweredBy | AFLplusplus/instrumentation/split-switches-pass.so.cc:360-407 | Tree, new default, jump and default update together lower the switch. |
| SwitchLowering.Function.SwitchConvert | AFLplusplus/instrumentation/split-switches-pass.so.cc:109-298 | Terminates on case count plus unchecked bytes; for every value that agrees with the cases on the checked bytes the tree reaches the matching case's block, else the default; each case makes one leaf edge and moves one phi entry to it. |
| SwitchLowering.Function.ConvertEq | AFLplusplus/instrumentation/split-switches-pass.so.cc:174-245 | The node that tests one byte for equality. |
| SwitchLowering.Function.ConvertLess | AFLplusplus/instrumentation/split-switches-pass.so.cc:247-294 | The node that tests against the median, over the conversions of both parts. |
| SwitchLowering.Function.UpdatePhis | AFLplusplus/instrumentation/split-switches-pass.so.cc:215-235 | Only the first entry of the block in each phi changes its source. |
| SwitchLowering.OneCaseLeft | AFLplusplus/instrumentation/split-switches-pass.so.cc:191-212 | The assertion: when all bytes are checked, distinct cases that agree on them are one. |
| SwitchLowering.LeafDecides | AFLplusplus/instrumentation/split-switches-pass.so.cc:210-213 | A leaf decides: value equal to the case, or default. |
| SwitchLowering.EqDecides | AFLplusplus/instrumentation/split-switches-pass.so.cc:237-243 | A byte equality over a deciding subtree decides. |
| SwitchLowering.LessDecides | AFLplusplus/instrumentation/split-switches-pass.so.cc:280-292 | A comparison over two deciding subtrees decides. |
| SwitchLowering.EqConverted | AFLplusplus/instrumentation/split-switches-pass.so.cc:237-243 | The equality node over a converted subtree is a conversion of all cases. |
| SwitchLowering.LessConverted | AFLplusplus/instrumentation/split-switches-pass.so.cc:280-292 | The comparison node over two converted subtrees is a conversion of all cases. |
| SwitchLowering.LessMoved | AFLplusplus/instrumentation/split-switches-pass.so.cc:280-284 | The edges of both parts have got the entries of their cases, no more and no fewer. |
| SwitchCases.BothSides | AFLplusplus/instrumentation/split-switches-pass.so.cc:250-278 | The median pivot leaves cases on both sides. |
| SwitchCases.PartTarget | AFLplusplus/instrumentation/split-switches-pass.so.cc:262-278 | Splitting the cases by a byte keeps the target of every value on that side. |
| SwitchCases.AgreeIsEqual | AFLplusplus/instrumentation/split-switches-pass.so.cc:191-212 | Agreement on all bytes of the width is equality. |
| SwitchCases.ByteSets | AFLplusplus/instrumentation/split-switches-pass.so.cc:123-134 | The byte values of the cases at each position. |
| SwitchCases.Smallest | AFLplusplus/instrumentation/split-switches-pass.so.cc:136-152 | An unchecked position, the first with the fewest values; the asserted condition. |
| PhiMoves.MovedValue | AFLplusplus/instrumentation/split-switches-pass.so.cc:215-235 | A block with an edge to a target finds there the value the original block brought. |
| PhiMoves.MovedTwice | AFLplusplus/instrumentation/split-switches-pass.so.cc:215-235 | Moves of entries compose over disjoint sets of new blocks. |
| PhiMoves.ReplaceFirstCounts | AFLplusplus/instrumentation/split-switches-pass.so.cc:222-233 | One entry less for the old block, one more for the new. |
| Ir.FollowOn | AFLplusplus/instrumentation/split-switches-pass.so.cc:381-386 | Walks through the tree compose. |
| Ir.TransfersOnce | AFLplusplus/instrumentation/split-switches-pass.so.cc:381-386 | The edge by which control leaves the tree is unique. |
| CompareChain.Unroll | AFLplusplus/instrumentation/compare-transform-pass.so.cc:442-555 | The loop over bytes builds, block by block and with the phi, the chain that is specified for each position. |
| CompareChain.RunIsMeaning | AFLplusplus/instrumentation/compare-transform-pass.so.cc:474-560 | Running the built blocks computes the recursive meaning of the chain. |
| CompareChain.ChainIsLibrary | AFLplusplus/instrumentation/compare-transform-pass.so.cc:396-555 | For strcmp, strncmp and their caseless forms with no, constant or run-time size, and memcmp within the visible constant: no read beyond what the library reads; zero exactly when the library gives zero; the exact difference when it lies in -128 to 127, and the right sign exactly then. |
| CompareChain.LibraryByBytes | AFLplusplus/instrumentation/compare-transform-pass.so.cc:359-366 | What is asked of the library, by callee: 0 exactly if up to the limit, and in strings the first NUL, bytes are equal or, for strcasecmp and strncasecmp, the two cases of one letter; else the difference of the first bytes that are not, letters in lower case for these two. |
| CompareChain.ChainByBytes | AFLplusplus/instrumentation/compare-transform-pass.so.cc:396-555 | Running the chain gives 0 exactly if up to the limit, and in strings the first NUL, bytes are equal or, for the two caseless callees, the two cases of one letter. |
| CompareChain.MemcmpExactly | AFLplusplus/instrumentation/compare-transform-pass.so.cc:414-445 | For all contents of the other operand memcmp keeps its meaning, be it only on being zero or on the difference as eight bits hold it, if and only if the size does not exceed the visible constant. |
| CompareChain.MemcmpFails | AFLplusplus/instrumentation/compare-transform-pass.so.cc:414-445 | memcmp(x, "abc\0d", 5) with "abc" visible is replaced; on "abc\0e" the library gives 1 and the chain 0. |
| CompareChain.BcmpExactly | AFLplusplus/instrumentation/compare-transform-pass.so.cc:414-445 | bcmp, treated as a string compare, keeps its meaning if and only if its size is that of the constant with its NUL and the constant holds that. |
| CompareChain.BcmpFails | AFLplusplus/instrumentation/compare-transform-pass.so.cc:414-445 | bcmp(x, "abcd", 4) is replaced; on "abcde" the library gives 0 and the chain, which takes in the NUL, does not. |
| CompareChain.StringMeaning | AFLplusplus/instrumentation/compare-transform-pass.so.cc:474-555 | As long as bytes are equal and not NUL, the chain computes what the library function has left to compute. |
| CompareChain.MemoryMeaning | AFLplusplus/instrumentation/compare-transform-pass.so.cc:474-555 | For memcmp within the visible constant the chain from byte i on computes what the library has left to compute. |
| CompareChain.MeaningZero | AFLplusplus/instrumentation/compare-transform-pass.so.cc:474-555 | Zero exactly on the bytes the chain was built from. |
| CompareChain.SextSigns | AFLplusplus/instrumentation/compare-transform-pass.so.cc:513-520 | Sign extension of the 8-bit difference keeps zero, and keeps sign and value exactly from -128 to 127. |
| CompareChain.OrderZero | AFLplusplus/instrumentation/compare-transform-pass.so.cc:442-445 | A sized memory compare is zero exactly for equal bytes. |
| PoolList.List.Append | AFLplusplus/include/list.h:70-94 | The ring grows by one element at its end, its data by the new pointer; an untouched list is initialised first. |
| PoolList.List.Remove | AFLplusplus/include/list.h:148-166 | The first element with that pointer leaves; a fatal error exactly if there is none. |
| PoolList.List.Contains | AFLplusplus/include/list.h:170-180 | True exactly if some element has the pointer; a fatal error exactly on a list never appended to. |
| PoolList.List.ForeachRemove | AFLplusplus/include/list.h:96-130 | Removing the current element while walking, as decided at each visit: every element is visited once, in order, and what is kept is the sequence without those decided against, also among equal pointers. |
| PoolList.Walked | AFLplusplus/include/list.h:113-130 | One step of the walk keeps what was kept and what is still ahead. |
| PoolList.KeepNothing | AFLplusplus/include/list.h:134-146 | Deciding against every element visited empties the list. |
| PoolList.List.Link | AFLplusplus/include/list.h:88-92 | The ring stays a ring with the box between the last node and the head. |
| PoolList.List.Unlink | AFLplusplus/include/list.h:123-130 | The ring stays a ring without the node. |
| PoolList.List.Initialize | AFLplusplus/include/list.h:73-81 | An empty ring at the head, which takes a pool slot. |
| PoolList.List.PreAlloc | AFLplusplus/include/afl-prealloc.h:58-105 | A pool slot exactly while the counter is below the pool size, else memory from malloc; the counter is the number of used slots, head included. |
| PoolList.List.PreFree | AFLplusplus/include/afl-prealloc.h:107-140 | The slot or the memory leaves the books, and the counter follows for pool slots alone. |
| PoolList.CountFull | AFLplusplus/include/afl-prealloc.h:58-90 | Below the pool size some slot is not used, so that the scan finds one. |
| ForkServer.ForksOnlyAfterReaping | AFLplusplus/instrumentation/afl-compiler-rt.o.c:1053-1079 | In every run a fork happens only when no earlier child is unreaped. |
| ForkServer.StoppedFlagIsExact | AFLplusplus/instrumentation/afl-compiler-rt.o.c:1053-1126 | Between status and launch, child_stopped says exactly that the child is stopped, or was killed while it was and is not yet reaped. |
| ForkServer.OnePidOneStatus | AFLplusplus/instrumentation/afl-compiler-rt.o.c:1106-1135 | Every command answered got one pid and then one status. |
| ForkServer.ContinuesOnlyTheStopped | AFLplusplus/instrumentation/afl-compiler-rt.o.c:1096-1104 | SIGCONT goes only to the server's own child that is stopped or was killed while stopped. |
| ForkServer.ForksAreCeiling | AFLplusplus/instrumentation/afl-compiler-rt.o.c:1144-1198 | Without kills or crashes N commands cost ceil(N / max_cnt) forks; max_cnt of 0 counts as 2^32, and without persistent mode each costs one. |
| ForkServer.InvServer | AFLplusplus/instrumentation/afl-compiler-rt.o.c:1006-1137 | Every step of the server keeps the invariant. |
| ForkServer.InvChild | AFLplusplus/instrumentation/afl-compiler-rt.o.c:1006-1137 | Every step of the child and every kill keeps the invariant. |
| ForkServer.AccountedServer | AFLplusplus/instrumentation/afl-compiler-rt.o.c:1144-1198 | Steps of the server keep the balance of commands, forks and inputs left. |
| ForkServer.AccountedChild | AFLplusplus/instrumentation/afl-compiler-rt.o.c:1144-1198 | Turns of the persistent loop in the child keep the balance of commands, forks and inputs left. |
| ForkServer.Child.PersistentLoop | AFLplusplus/instrumentation/afl-compiler-rt.o.c:1144-1198 | First pass goes on, later passes stop until the countdown ends, without persistent mode the second leaves. |
| ForkServer.Child.HandleAll | AFLplusplus/instrumentation/afl-compiler-rt.o.c:1144-1198 | A fresh process handles exactly its share of inputs and stops between any two. |
| ForkServer.Server.Answer | AFLplusplus/instrumentation/afl-compiler-rt.o.c:1006-1137 | One turn of the loop is a stretch of a run. A command is answered if and only if the child that is to be written off is dead, and the child does not end up stopped outside persistent mode. It then sends the pid, the old one exactly if a stopped child is continued, and the status: stopped, or that of the child, or that of the kill if the child was dead already. The flag is set exactly for a stop. |
| ForkServer.Server.Prepare | AFLplusplus/instrumentation/afl-compiler-rt.o.c:1053-1067 | A stopped child that was killed is reaped before anything else; the server waits forever exactly if told of a kill that did not happen. |
| ForkServer.Server.WriteOff | AFLplusplus/instrumentation/afl-compiler-rt.o.c:1057-1067 | waitpid returns exactly if the child is dead, and the flag is cleared first. |
| ForkServer.Server.Relay | AFLplusplus/instrumentation/afl-compiler-rt.o.c:1115-1135 | The status relayed is that of the child, and the flag is set exactly if it is stopped. |
| ForkServer.Server.Launch | AFLplusplus/instrumentation/afl-compiler-rt.o.c:1069-1113 | Forks exactly when no child is stopped, else continues it, and reports the pid. |
| ForkServer.Server.Await | AFLplusplus/instrumentation/afl-compiler-rt.o.c:1115-1135 | A status is sent if and only if the child has died, or has stopped in persistent mode; it is the status of that end, and the flag is set exactly for a stop. |
| EdgeMap.Trace.Hit | AFLplusplus/instrumentation/afl-compiler-rt.o.c:159-179 | After any sequence of ids every cell is 0 for no hit, else ((n - 1) mod 255) + 1 over what the map held. |
| EdgeMap.Trace.HitPortably | AFLplusplus/instrumentation/afl-compiler-rt.o.c:169-173 | The form without the overflow builtin: every cell is 0 for no hit, else ((n - 1) mod 255) + 1 over what the map held. |
| EdgeMap.Payload32.Store | AFLplusplus/include/afl-as.h:183-196 | The 32-bit assembly keeps the same map and previous location. |
| EdgeMap.Payload64.Store | AFLplusplus/include/afl-as.h:441-451 | The 64-bit assembly with its double exclusive or keeps the same map and previous location. |
| EdgeMap.FormsAgree | AFLplusplus/include/afl-as.h:441-451 | After the same blocks all forms have the same map and previous location. |
| EdgeMap.HitsArePairs | AFLplusplus/instrumentation/afl-compiler-rt.o.c:159-164 | The hits of a cell are the positions where (prev >> 1) ^ cur is its index. |
| EdgeMap.CellsNeverZero | AFLplusplus/instrumentation/afl-compiler-rt.o.c:166-173 | A cell is zero exactly if it was and no pair met it. |
| EdgeMap.XorBack | AFLplusplus/include/afl-as.h:442-444 | The second exclusive or brings the id back. |
| EdgeMap.AddWithCarry | AFLplusplus/include/afl-as.h:195-196 | Adding the carry skips zero. |
| EdgeMap.AddOverflow | AFLplusplus/instrumentation/afl-compiler-rt.o.c:166-171 | The overflow builtin skips zero. |
| EdgeMap.AddUnlessZero | AFLplusplus/instrumentation/afl-compiler-rt.o.c:172-174 | So does the form without it. |
| CmpLog.CmpMap.Hook1 | AFLplusplus/instrumentation/afl-compiler-rt.o.c:1489-1521 | Equal operands change nothing; others are recorded at their key, all keys keep the invariant of header and ring. |
| CmpLog.CmpMap.Hook2 | AFLplusplus/instrumentation/afl-compiler-rt.o.c:1523-1558 | Equal operands change nothing; others are recorded at their key, all keys keep the invariant of header and ring. |
| CmpLog.CmpMap.Hook4 | AFLplusplus/instrumentation/afl-compiler-rt.o.c:1560-1597 | Equal operands change nothing; others are recorded at their key, all keys keep the invariant of header and ring. |
| CmpLog.CmpMap.Hook8 | AFLplusplus/instrumentation/afl-compiler-rt.o.c:1599-1636 | Equal operands change nothing; others are recorded at their key, all keys keep the invariant of header and ring. |
| CmpLog.CmpMap.HookN | AFLplusplus/instrumentation/afl-compiler-rt.o.c:1640-1687 | Integers of any size byte: equal operands change nothing, others are recorded at their key; high halves are written above eight bytes. The shape stays the largest size exactly while every size fits five bits. |
| CmpLog.CmpMap.Hook16 | AFLplusplus/instrumentation/afl-compiler-rt.o.c:1689-1726 | Records equal operands as well. |
| CmpLog.CmpMap.TraceSwitch | AFLplusplus/instrumentation/afl-compiler-rt.o.c:1793-1832 | Records the value with every case, each at its own key, in order; afterwards each case is among the calls at its key, the value being the first operand. |
| CmpLog.KeyBits | AFLplusplus/instrumentation/afl-compiler-rt.o.c:1496-1498 | Bit j of a key, below 16, is the exclusive or of the bits j + 4 and j - 8 of the return address. |
| CmpLog.AllCasesRecorded | AFLplusplus/instrumentation/afl-compiler-rt.o.c:1803-1830 | No case displaces what was recorded for another one. |
| CmpLog.CmpMap.RoutineHook | AFLplusplus/instrumentation/afl-compiler-rt.o.c:1878-1933 | Nothing if either region cannot be read; else the common readable length of both is recorded in a ring of 8. |
| CmpLog.SlotHoldsLatest | AFLplusplus/instrumentation/afl-compiler-rt.o.c:1489-1636 | Slot j holds the operands of the latest recorded call whose number is j modulo the ring size, 32 or 8. |
| CmpLog.SameSlot | AFLplusplus/include/cmplog.h:45-47 | The wrap of the 24-bit counter does not disturb the ring. |
| CmpLog.HeaderAfter | AFLplusplus/include/cmplog.h:45-54 | Hit count modulo 2^24, kind and last attribute, as each call leaves them; the shape is the largest size if and only if all sizes are below 32. |
| CmpLog.RowAfter | AFLplusplus/instrumentation/afl-compiler-rt.o.c:1516-1519 | The new call enters the slot of its number and the latest others stay. |
| CmpLog.MaxSizeIsMax | AFLplusplus/instrumentation/afl-compiler-rt.o.c:1533-1550 | The shape is the largest size recorded since the kind changed. |
| CmpLog.KeptSinceKindChanged | AFLplusplus/instrumentation/afl-compiler-rt.o.c:1499-1512 | What a key keeps is exactly the calls since the kind last changed. |
| Coverage64.HasNewBitsUnclassified | AFLplusplus/src/afl-fuzz-bitmap.c:255-284 | With any class table: the fast path leaves both maps alone and is as if the trace, its non-zero 64-bit words classified, had been folded in; the result is the novelty of that over the whole history. |
| Coverage64.HasNewBits | AFLplusplus/src/afl-fuzz-bitmap.c:220-253 | 2 iff some byte is set that no earlier trace set, else 1 iff some bit is new, else 0; the virgin map stays the complement of all traces. |
| Coverage64.DiscoverWord | AFLplusplus/include/coverage-64.h:77-107 | On one word: the result moves as the byte specification says and exactly the bits of the trace are cleared. |
| Coverage64.SkimScalar | AFLplusplus/include/coverage-64.h:170-186 | With any class table: 1 iff a class of a non-zero word of the unclassified trace has a bit in the virgin map. |
| Coverage64.SkimAvx2 | AFLplusplus/include/coverage-64.h:141-166 | The same verdict as the portable form, with lanes picked by the byte mask of a vector compare. |
| Coverage64.SkimAvx512 | AFLplusplus/include/coverage-64.h:109-137 | The same verdict as the portable form, with lanes picked by the mask of a vector test. |
| Coverage64.Mask4Is | AFLplusplus/include/coverage-64.h:150-154 | The byte mask of the vector compare tells which of four lanes are zero, and is full exactly for all. |
| Coverage64.Mask8Is | AFLplusplus/include/coverage-64.h:115-119 | The mask of the vector test tells which of eight lanes are zero, and is full exactly for all. |
| Coverage64.ClassifyCounts | AFLplusplus/include/coverage-64.h:58-73 | Every byte is replaced by its class in any table, except in 64-bit words that are zero. |
| Coverage64.ClassesOfWord | AFLplusplus/include/coverage-64.h:11-24 | Four lookups of pairs classify eight bytes. |
| Coverage64.SkippingIsExactIff | AFLplusplus/include/coverage-64.h:58-73 | Skipping zero words classifies all traces byte by byte if and only if the table keeps zero. |
| Coverage64.VerdictsAgreeIff | AFLplusplus/src/afl-fuzz-bitmap.c:255-284 | The verdicts on all unclassified traces after all histories are those on the bytes' classes if and only if the table keeps zero. |
| Coverage32.SkippingIsExactIff | AFLplusplus/include/coverage-32.h:48-63 | Skipping zero words classifies all traces byte by byte if and only if the table keeps zero. |
| Coverage32.VerdictsAgreeIff | AFLplusplus/src/afl-fuzz-bitmap.c:255-284 | The verdicts on all unclassified traces after all histories are those on the bytes' classes if and only if the table keeps zero. |
| Coverage64.SimplifyTrace | AFLplusplus/include/coverage-64.h:26-56 | Every byte that is zero becomes 1 and every other 128, also in words that are skipped as zero. |
| Coverage32.HasNewBitsUnclassified | AFLplusplus/src/afl-fuzz-bitmap.c:255-284 | With any class table: the fast path leaves both maps alone and is as if the trace, its non-zero 32-bit words classified, had been folded in; the result is the novelty of that over the whole history. |
| Coverage32.HasNewBits | AFLplusplus/src/afl-fuzz-bitmap.c:220-253 | As with 64-bit words, against the same specification over the history of traces, so that both widths give the same results and maps. |
| Coverage32.DiscoverWord | AFLplusplus/include/coverage-32.h:67-95 | On one 32-bit word: the result moves as the byte specification says and exactly the bits of the trace are cleared. |
| Coverage32.Skim | AFLplusplus/include/coverage-32.h:97-111 | With any class table: 1 iff a class of a non-zero 32-bit word of the unclassified trace has a bit in the virgin map. |
| Coverage32.ClassifyCounts | AFLplusplus/include/coverage-32.h:48-63 | Every byte is replaced by its class in any table, except in 32-bit words that are zero. |
| Coverage32.SimplifyTrace | AFLplusplus/include/coverage-32.h:20-46 | Every byte that is zero becomes 1 and every other 128. |
| CoverageWidths.CountsAgreeIff | AFLplusplus/include/coverage-64.h:58-73 | With any two-byte table the loops over 64-bit and 32-bit words classify all maps alike if and only if the table keeps zero. |
| CoverageWidths.SimplifyAgreesIff | AFLplusplus/include/coverage-64.h:26-56 | With any table the loops over 64-bit and 32-bit words simplify all maps alike if and only if zero is mapped to one. |
| Coverage.VerdictIsNovelty | AFLplusplus/include/coverage-64.h:79-105 | Tests against the virgin map decide novelty against all earlier traces. |
| Coverage.ComplementsNext | AFLplusplus/include/coverage-64.h:103-103 | Clearing the trace's bits keeps the virgin map the complement of the history. |
| Coverage.UnionLacks | AFLplusplus/include/coverage-64.h:103-103 | A bit is still virgin exactly if no trace had it. |
| Coverage.NeverTwice | AFLplusplus/src/afl-fuzz-bitmap.c:212-219 | A trace seen before is worth nothing, as the comment on has_new_bits promises. |
| Coverage.NothingFresh | AFLplusplus/src/afl-fuzz-bitmap.c:255-284 | Without fresh bits the result is 0 and folding the trace in changes nothing. |
| Coverage.InitCountClass16 | AFLplusplus/src/afl-fuzz-bitmap.c:187-202 | For any one-byte table, every entry of the two-byte table classifies both of its bytes. |
| CountClasses.ClassZeroIff | AFLplusplus/src/afl-fuzz-bitmap.c:164-176 | The table has no class for a count if and only if it is 0, 64 to 127, or 192 and more. |
| CountClasses.OrderedIff | AFLplusplus/src/afl-fuzz-bitmap.c:164-176 | Of two counts the higher has a class not below the other's if and only if it has one or the other has none. |
| CountClasses.OrderFails | AFLplusplus/src/afl-fuzz-bitmap.c:164-176 | 63 hits have class 64 and 64 hits have none. |
| CountClasses.AsShownIff | AFLplusplus/src/afl-showmap.c:109-121 | The class is the bit of the one that users are shown if and only if the count is outside the two gaps. |
| CountClasses.VerdictOnCounts | AFLplusplus/src/afl-fuzz-bitmap.c:220-253 | After any traces of counts a trace is worth 2 iff some cell has a class and never had one, and at least 1 iff some cell has a class that it never had. |
| CountClasses.FirstHitNoticedIff | AFLplusplus/src/afl-fuzz-bitmap.c:212-218 | Without a history the verdict is 2, for new tuples, if and only if some cell's count has a class; cells hit 64 to 127 or from 192 times do not matter. |
| CountClasses.SixtyFourHitsUnnoticed | AFLplusplus/src/afl-fuzz-bitmap.c:164-176 | A trace with one cell, of 64 hits, is worth 0 to a fuzzer that has seen nothing. |
| CountClasses.SkippingIsExact | AFLplusplus/src/afl-fuzz-bitmap.c:164-176 | The table keeps zero, so that skipping words is exact with it in both widths. |
| CountClasses.Session | AFLplusplus/src/afl-fuzz-bitmap.c:187-284 | With the table as initialised and a virgin map, in either width and with every form of skim, each run is judged by its novelty after all runs before it. |
| BlockPruning.FootprintDeterminesBlocks | AFLplusplus/instrumentation/SanitizerCoverageLTO.so.cc:1202-1234 | Two complete runs that record the same instrumented blocks went through the same blocks: pruning loses nothing. |
| BlockPruning.UnreachablePredecessorsFail | AFLplusplus/instrumentation/SanitizerCoverageLTO.so.cc:1202-1234 | Where a live block has predecessors that control never reaches, two runs with the same record, here an empty one, can go through different blocks. |
| BlockPruning.FullDominatorOnPath | AFLplusplus/instrumentation/SanitizerCoverageLTO.so.cc:1171-1184 | On every complete path a full dominator lies iff one of its successors does. |
| BlockPruning.FullPostDominatorOnPath | AFLplusplus/instrumentation/SanitizerCoverageLTO.so.cc:1186-1200 | A full post-dominator other than the entry lies on it iff one of its predecessors does. |
| BlockPruning.ShouldInstrumentBlock | AFLplusplus/instrumentation/SanitizerCoverageLTO.so.cc:1202-1234 | Which blocks are instrumented, for each kind of coverage and with or without pruning: by default those that are neither full dominators nor full post-dominators with several predecessors, and a lone entry. |
| BlockPruning.IsFullDominator | AFLplusplus/instrumentation/SanitizerCoverageLTO.so.cc:1171-1184 | The loop over successors decides full dominance by paths. |
| BlockPruning.IsFullPostDominator | AFLplusplus/instrumentation/SanitizerCoverageLTO.so.cc:1186-1200 | The loop over predecessors decides full post-dominance by paths. |
| BlockPruning.HeadDominatesLive | AFLplusplus/instrumentation/SanitizerCoverageLTO.so.cc:1268-1270 | A block with several predecessors that a full dominator leads to heads a loop and dominates its own successors, once critical edges are split. |
| BlockPruning.DominatorRecorded | AFLplusplus/instrumentation/SanitizerCoverageLTO.so.cc:1229-1232 | A pruned dominator's presence follows from recorded blocks. |
| BlockPruning.BlockRecorded | AFLplusplus/instrumentation/SanitizerCoverageLTO.so.cc:1229-1232 | Every block on a run is on any other that records the same instrumented blocks. |
| Growth.NextPow2IsRoundUpIff | AFLplusplus/include/alloc-inl.h:606-625 | For arguments up to 2^63 next_pow2 equals next_p2 if and only if no 32 zero bits in a row lie below the highest bit of the argument less one; always up to 2^32. |
| Growth.NextPow2WrapsIff | AFLplusplus/include/alloc-inl.h:603-625 | Above 2^63 it gives the 0 that is documented for overflow if and only if the same holds. |
| Growth.GapFails | AFLplusplus/include/alloc-inl.h:606-625 | At 2^32 + 1 next_pow2 does not give the least power of two. |
| Growth.NextPow2Is | AFLplusplus/include/alloc-inl.h:617-623 | Five shifts smear every bit over 32 places. |
| Growth.NextPow2Covers | AFLplusplus/include/alloc-inl.h:617-623 | next_pow2 is never below its argument unless it wraps to zero. |
| Growth.NextP2 | AFLplusplus/include/afl-fuzz.h:1226-1237 | The loop ends at the least power of two that is enough, up to 2^63. |
| Growth.RoundUpIsLeast | AFLplusplus/include/afl-fuzz.h:1224-1237 | The least power of two that is not below the argument. |
| Growth.Pointer.AflRealloc | AFLplusplus/include/alloc-inl.h:663-717 | Content is kept; a block that is large enough stays as it is; one that grows is moved and the old one freed, or keeps its place; a refused request frees it, clears the pointer and gives NULL. |
| Growth.GetRoom | AFLplusplus/include/alloc-inl.h:655-715 | There is room for what was asked if and only if adding the header does not wrap; and for more, as documented, if and only if in addition a block that stays is larger than needed, or the size of one that grows is not tight: a power of two from 64 on, or above 2^63 without 32 zero bits in a row below the highest bit of the size less one. |
| Growth.NextSizeIsTightIff | AFLplusplus/include/alloc-inl.h:683-696 | The size given is no more than the size needed exactly for tight sizes. |
| Growth.NoSpareByte | AFLplusplus/include/alloc-inl.h:655-715 | A request of 56 on an empty pointer gets room for 56. |
| Growth.RequestNothing | AFLplusplus/include/alloc-inl.h:658-715 | A request of 0 is one like others: it gives a block when memory is granted, and never frees one. |
| Growth.NextSize | AFLplusplus/include/alloc-inl.h:683-696 | The new size covers the request and the initial size, after overflow too. |
| Growth.NextSizeDoubles | AFLplusplus/include/alloc-inl.h:690-694 | Each growth at least doubles the power of two. |
| Growth.Requests | AFLplusplus/include/alloc-inl.h:656-717 | Requests whose sizes with header stay within 2^32 are all satisfied, whether blocks move or grow in place, and the buffer grows at most 1 + log2(final / 64) times. |
| Rand.Unbiased | AFLplusplus/include/afl-fuzz.h:1172-1183 | Every result below the limit stands for the same number of accepted 64-bit words. |
| Rand.CountPreimages | AFLplusplus/include/afl-fuzz.h:1172-1183 | How many words below any bound leave a given remainder. |
| Rand.RejectsFew | AFLplusplus/include/afl-fuzz.h:1177-1181 | At most as many words as the limit are rejected. |
| Rand.NarrowGeneratorIsBiased | AFLplusplus/src/afl-performance.c:55-68 | With the 32-bit generator nothing is rejected, and results are unbiased if and only if the limit divides 2^32. |
| Rand.NextIsReversible | AFLplusplus/src/afl-performance.c:43-53 | No two seeds lead to the same one, so that uniform seeds stay uniform. |
| Rand.NextTells | AFLplusplus/src/afl-performance.c:43-53 | The new first word gives the old second one back, and so does the new second one together with what was drawn. |
| Rand.FirstSeedsDiffer | AFLplusplus/src/afl-performance.c:30-39 | Different initial seeds give different states of the generator. |
| Rand.NeverAllZero | AFLplusplus/src/afl-performance.c:30-53 | From no initial seed does the generator ever reach the state that is everywhere zero, and would stay there. |
| Rand.Afl.RandSetSeed | AFLplusplus/src/afl-performance.c:30-36 | The state is the hash of the bytes of the initial seed, and that hash with fixed bits flipped. |
| Rand.Afl.RandBelow | AFLplusplus/include/afl-fuzz.h:1157-1185 | For every seed and any number of draws watched: there is a result if and only if one of them is accepted; it is the first accepted word modulo the limit, and the seed has moved just past it. 0 and no draw for limits of at most 1. |
| Rand.BelowIsUnique | AFLplusplus/include/afl-fuzz.h:1172-1183 | Result and state left do not depend on how many draws are watched. |
| Rand.FewRejectedTwice | AFLplusplus/include/afl-fuzz.h:1177-1181 | With R = 2^64 - 1 mod the limit, plus 1, rejected words, exactly R * R of the 2^128 seeds get past two draws without a result, fewer than one in 2^64. |
| Rand.DivisorsSettle | AFLplusplus/include/afl-fuzz.h:1177-1181 | For limits that divide 2^64 - 1, such as the 3 of rand_below_datalen, three draws are enough from every seed. |
| Rand.ZeroSeedSettles | AFLplusplus/src/afl-performance.c:43-53 | The zero seed stays as it is, and its draws are accepted for every limit. |
| Rand.Afl.RandBelowDatalen | AFLplusplus/include/afl-fuzz.h:1190-1211 | The draws, one after the other from the state the last one left: one of three cases, one number below the limit, and as many smaller ones as the case says. The result is that number, or what remains of it on division by one more than the third draw, and for case 2 what remains of that on division by one more than the fourth. There is none exactly when a draw has none. |
| Rand.OneResult | AFLplusplus/include/afl-fuzz.h:1196-1205 | The draws determine the result. |
| Rand.PreferredIsLower | AFLplusplus/include/afl-fuzz.h:1187-1205 | Lower values are preferred: the result is at most the plain draw and at most every draw that reduces it. |
| Rand.Afl.Reseed | AFLplusplus/include/afl-fuzz.h:1163-1170 | Unless the seed is fixed, new randomness is read at least every 150000 calls; the count left comes from the new seed. |

## Left out

- XXH3 for inputs of at most 240 bytes: the short-input functions are symbolic (`ShortHash` of the input, the secret and the seed they are given), so that streaming is still proved to pass them the right arguments.
- The 128-bit variant of XXH3, secret generation, canonical forms, state copies, and the NEON, VSX, AVX2 and AVX512 kernels, which repeat the argument for the SSE2 form. Prefetching and alignment have no meaning here.
- Xxh3Stream.State.ResetWithSecret: the caller's secret is a value, so that a caller who changes it between reset and digest is not captured.
- Xxh3Stream.State.Update: an input is at most PTRDIFF_MAX bytes, which no object exceeds; with lengths next to 2^64 the sum with the buffered size would wrap. The same holds of `Xxh64.State.Update` and `Xxh32.State.Update`.
- Xxh64.State.Digest: for totals of 2^64 bytes or more, where the counter wraps, nothing is promised; the same holds of XXH3.
- Xxh64Distinct.UnitTells: inputs that differ in a whole stripe can have the same hash, and nothing is proved of them; for XXH32 and XXH3 nothing of the kind is.
- SplitSwitches.Split: switches over more than 64 bits, which the pass's assertion stops, are not modelled; the tree's bookkeeping of names and instructions within a block is not either.
- CompareChain.Unroll: the search for calls and the tracking of variables that hold constant strings; `tolower` is that of the POSIX locale; the difference of bytes of 128 and more has the sign that the chain computes, which `ChainIsLibrary` tells apart exactly.
- PoolList.List.ForeachRemove: the block of a foreach removes the current element or nothing, as a decision per visit given beforehand; blocks that append, or remove other elements, are not modelled. `malloc` always succeeds.
- The double-free and status checks of the pool macros, which end the program, are preconditions of `PreFree` that the list meets.
- The handshake of the fork server, its extended options, the snapshot server, deferred start and shared memory. Pipes and system calls are steps that succeed or end the server; pids are positive numbers, and their reuse is not modelled.
- ForkServer.ForksAreCeiling: the child enters the persistent loop once, at once after the fork, and its work between two calls of the loop is one step.
- EdgeMap.Trace.Hit: ids are below the map size of 2^16, as the instrumentation chooses them; NGRAM and context variants and the plain counter without the never-zero feature are left out.
- CmpLog.CmpMap.RoutineHook: how many bytes can be read is a parameter; the hooks for std::string arguments and an absent map are left out, and so are the high halves of operands of at most eight bytes, which keep stale content.
- Coverage64.HasNewBits: the flag that the bitmap has changed is left out.
- BlockPruning.FootprintDeterminesBlocks: no block that control can reach and that is not skipped is entered from one that it cannot reach (where this fails, `UnreachablePredecessorsFail` shows the property lost); the skipped blocks have no successors (so not catchswitch blocks), and the run does not end in an `unreachable` block; critical edges that cannot be split, those of indirect branches, are excluded.
- BlockPruning.IsFullDominator: the dominator and post-dominator trees are taken as given, exact for paths.
- Growth.Pointer.AflRealloc: `afl_realloc_exact`, `afl_free` and the swap of buffers would add only easy members. A block that grows in place is the same object with a longer array.
- Rand.Afl.RandBelow: the source's loop has no bound on draws, and does not end for a seed from which none is ever accepted; the model has a bound, any number, and says when there is a result within it. Which of the few seeds of `FewRejectedTwice` never get a result, the period of the generator decides, and nothing on that is part of this model.
- Rand.Afl.RandSetSeed: the third word, which only the 32-bit generator uses, and the record of the initial seed are left out.
- Rand.Afl.RandBelowDatalen: the order in which C evaluates the draws is not fixed by the language; here it is from left to right. One read of the system's randomness is given for the whole call, as the count left after it outlasts the call.
- The bodies of the dictionary, guard and injection code of the LTO pass, and everything that configures, schedules or reports.
