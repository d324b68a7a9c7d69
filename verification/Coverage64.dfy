/** The coverage routines on 64-bit words of the maps. */
module Coverage64 {
  import opened Coverage

  // ---- words ----

  /** A little-endian word in memory. */
  function Word(b0: bv8, b1: bv8, b2: bv8, b3: bv8, b4: bv8, b5: bv8, b6: bv8, b7: bv8): bv64 {
    (b0 as bv64) | (b1 as bv64 << 8) | (b2 as bv64 << 16) | (b3 as bv64 << 24)
    | (b4 as bv64 << 32) | (b5 as bv64 << 40) | (b6 as bv64 << 48) | (b7 as bv64 << 56)
  }

  function ByteOf(w: bv64, k: nat): bv8
    requires k < 8
  {
    match k
    case 0 => (w & 0xff) as bv8
    case 1 => ((w >> 8) & 0xff) as bv8
    case 2 => ((w >> 16) & 0xff) as bv8
    case 3 => ((w >> 24) & 0xff) as bv8
    case 4 => ((w >> 32) & 0xff) as bv8
    case 5 => ((w >> 40) & 0xff) as bv8
    case 6 => ((w >> 48) & 0xff) as bv8
    case _ => ((w >> 56) & 0xff) as bv8
  }

  function Load(m: array<bv8>, at: nat): bv64
    requires at + 8 <= m.Length
    reads m
  {
    Word(m[at], m[at + 1], m[at + 2], m[at + 3], m[at + 4], m[at + 5], m[at + 6], m[at + 7])
  }

  method Store(m: array<bv8>, at: nat, w: bv64)
    requires at + 8 <= m.Length
    modifies m
    ensures forall i :: 0 <= i < m.Length ==> m[i] == if at <= i < at + 8 then ByteOf(w, i - at) else old(m[i])
  {
    for k := 0 to 8
      invariant forall i :: 0 <= i < m.Length ==> m[i] == if at <= i < at + k then ByteOf(w, i - at) else old(m[i])
    {
      m[at + k] := ByteOf(w, k);
    }
  }

  lemma BytesOfWord(b0: bv8, b1: bv8, b2: bv8, b3: bv8, b4: bv8, b5: bv8, b6: bv8, b7: bv8)
    ensures var w := Word(b0, b1, b2, b3, b4, b5, b6, b7);
            && ByteOf(w, 0) == b0 && ByteOf(w, 1) == b1 && ByteOf(w, 2) == b2 && ByteOf(w, 3) == b3
            && ByteOf(w, 4) == b4 && ByteOf(w, 5) == b5 && ByteOf(w, 6) == b6 && ByteOf(w, 7) == b7
  {
  }

  lemma ZeroWord(b0: bv8, b1: bv8, b2: bv8, b3: bv8, b4: bv8, b5: bv8, b6: bv8, b7: bv8)
    ensures Word(b0, b1, b2, b3, b4, b5, b6, b7) == 0 <==> b0 == b1 == b2 == b3 == b4 == b5 == b6 == b7 == 0
  {
  }

  /** Whether two words share a bit. */
  predicate Common(w: bv64, v: bv64) { w & v != 0 }

  function Clear(w: bv64, v: bv64): bv64 { w & !v }

  lemma AndWords(b0: bv8, b1: bv8, b2: bv8, b3: bv8, b4: bv8, b5: bv8, b6: bv8, b7: bv8,
                 c0: bv8, c1: bv8, c2: bv8, c3: bv8, c4: bv8, c5: bv8, c6: bv8, c7: bv8)
    ensures Word(b0, b1, b2, b3, b4, b5, b6, b7) & Word(c0, c1, c2, c3, c4, c5, c6, c7)
            == Word(b0 & c0, b1 & c1, b2 & c2, b3 & c3, b4 & c4, b5 & c5, b6 & c6, b7 & c7)
  {
  }

  lemma SharedBits(b0: bv8, b1: bv8, b2: bv8, b3: bv8, b4: bv8, b5: bv8, b6: bv8, b7: bv8,
                   c0: bv8, c1: bv8, c2: bv8, c3: bv8, c4: bv8, c5: bv8, c6: bv8, c7: bv8)
    ensures Common(Word(b0, b1, b2, b3, b4, b5, b6, b7), Word(c0, c1, c2, c3, c4, c5, c6, c7))
            <==> Share(b0, c0) || Share(b1, c1) || Share(b2, c2) || Share(b3, c3)
                 || Share(b4, c4) || Share(b5, c5) || Share(b6, c6) || Share(b7, c7)
  {
    AndWords(b0, b1, b2, b3, b4, b5, b6, b7, c0, c1, c2, c3, c4, c5, c6, c7);
    ZeroWord(b0 & c0, b1 & c1, b2 & c2, b3 & c3, b4 & c4, b5 & c5, b6 & c6, b7 & c7);
    hide Word;
  }

  lemma ClearedBits(b0: bv8, b1: bv8, b2: bv8, b3: bv8, b4: bv8, b5: bv8, b6: bv8, b7: bv8,
                    c0: bv8, c1: bv8, c2: bv8, c3: bv8, c4: bv8, c5: bv8, c6: bv8, c7: bv8)
    ensures Clear(Word(b0, b1, b2, b3, b4, b5, b6, b7), Word(c0, c1, c2, c3, c4, c5, c6, c7))
            == Word(Without(b0, c0), Without(b1, c1), Without(b2, c2), Without(b3, c3),
                    Without(b4, c4), Without(b5, c5), Without(b6, c6), Without(b7, c7))
  {
  }

  lemma FreshInWord(virgin: seq<bv8>, trace: seq<bv8>, at: nat)
    requires at + 8 <= |virgin| == |trace|
    ensures Fresh(virgin, trace, at, at + 8)
            <==> Share(trace[at], virgin[at]) || Share(trace[at + 1], virgin[at + 1])
                 || Share(trace[at + 2], virgin[at + 2]) || Share(trace[at + 3], virgin[at + 3])
                 || Share(trace[at + 4], virgin[at + 4]) || Share(trace[at + 5], virgin[at + 5])
                 || Share(trace[at + 6], virgin[at + 6]) || Share(trace[at + 7], virgin[at + 7])
  {
    hide Share;
  }

  lemma WordMeets(trace: array<bv8>, virgin: array<bv8>, at: nat)
    requires at + 8 <= trace.Length == virgin.Length
    ensures Common(Load(trace, at), Load(virgin, at)) <==> Fresh(virgin[..], trace[..], at, at + 8)
  {
    SharedBits(trace[at], trace[at + 1], trace[at + 2], trace[at + 3],
               trace[at + 4], trace[at + 5], trace[at + 6], trace[at + 7],
               virgin[at], virgin[at + 1], virgin[at + 2], virgin[at + 3],
               virgin[at + 4], virgin[at + 5], virgin[at + 6], virgin[at + 7]);
    FreshInWord(virgin[..], trace[..], at);
    hide Word, Share, Common, Fresh;
  }

  lemma WordClears(trace: array<bv8>, virgin: array<bv8>, at: nat)
    requires at + 8 <= trace.Length == virgin.Length
    ensures forall i :: at <= i < at + 8 ==>
              ByteOf(Clear(Load(virgin, at), Load(trace, at)), i - at) == Without(virgin[i], trace[i])
  {
    hide Load, ByteOf, Without, Clear;
    forall i | at <= i < at + 8
      ensures ByteOf(Clear(Load(virgin, at), Load(trace, at)), i - at) == Without(virgin[i], trace[i])
    {
      ByteClears(trace, virgin, at, i - at);
    }
  }

  lemma ByteClears(trace: array<bv8>, virgin: array<bv8>, at: nat, k: nat)
    requires at + 8 <= trace.Length == virgin.Length && k < 8
    ensures ByteOf(Clear(Load(virgin, at), Load(trace, at)), k) == Without(virgin[at + k], trace[at + k])
  {
    hide Word, ByteOf, Without, Clear;
    ClearedBits(virgin[at], virgin[at + 1], virgin[at + 2], virgin[at + 3],
                virgin[at + 4], virgin[at + 5], virgin[at + 6], virgin[at + 7],
                trace[at], trace[at + 1], trace[at + 2], trace[at + 3],
                trace[at + 4], trace[at + 5], trace[at + 6], trace[at + 7]);
    BytesOfWord(Without(virgin[at], trace[at]), Without(virgin[at + 1], trace[at + 1]),
                Without(virgin[at + 2], trace[at + 2]), Without(virgin[at + 3], trace[at + 3]),
                Without(virgin[at + 4], trace[at + 4]), Without(virgin[at + 5], trace[at + 5]),
                Without(virgin[at + 6], trace[at + 6]), Without(virgin[at + 7], trace[at + 7]));
    if k == 0 {
    } else if k == 1 {
    } else if k == 2 {
    } else if k == 3 {
    } else if k == 4 {
    } else if k == 5 {
    } else if k == 6 {
    }
  }

  lemma NothingShared(trace: array<bv8>, virgin: array<bv8>, at: nat)
    requires at + 8 <= trace.Length == virgin.Length
    requires !Fresh(virgin[..], trace[..], at, at + 8)
    ensures forall i :: at <= i < at + 8 ==> Without(virgin[i], trace[i]) == virgin[i]
  {
    hide Share, Without;
    forall i | at <= i < at + 8
      ensures Without(virgin[i], trace[i]) == virgin[i]
    {
      assert virgin[..][i] == virgin[i] && trace[..][i] == trace[i];
      Untouched(virgin[i], trace[i]);
    }
  }

  // ---- has_new_bits ----

  /** Whether a byte that is not zero meets one that no trace has touched. */
  predicate AnyPristine(trace: array<bv8>, virgin: array<bv8>, at: nat)
    requires at + 8 <= trace.Length == virgin.Length
    reads trace, virgin
  {
    || (trace[at] != 0 && virgin[at] == 0xff) || (trace[at + 1] != 0 && virgin[at + 1] == 0xff)
    || (trace[at + 2] != 0 && virgin[at + 2] == 0xff) || (trace[at + 3] != 0 && virgin[at + 3] == 0xff)
    || (trace[at + 4] != 0 && virgin[at + 4] == 0xff) || (trace[at + 5] != 0 && virgin[at + 5] == 0xff)
    || (trace[at + 6] != 0 && virgin[at + 6] == 0xff) || (trace[at + 7] != 0 && virgin[at + 7] == 0xff)
  }

  lemma AnyPristineIs(trace: array<bv8>, virgin: array<bv8>, at: nat)
    requires at + 8 <= trace.Length == virgin.Length
    ensures AnyPristine(trace, virgin, at) <==> Pristine(virgin[..], trace[..], at, at + 8)
  {
    ghost var v, t := virgin[..], trace[..];
    assert forall i :: at <= i < at + 8 ==> v[i] == virgin[i] && t[i] == trace[i];
    if AnyPristine(trace, virgin, at) {
      assert exists i :: at <= i < at + 8 && t[i] != 0 && v[i] == 0xff;
    }
  }

  /** discover_word, on the words at offset `at` */
  method DiscoverWord(trace: array<bv8>, virgin: array<bv8>, at: nat, was: int) returns (ret: int)
    requires trace != virgin && at + 8 <= trace.Length == virgin.Length
    modifies virgin
    ensures ret == if was >= 2 || !Fresh(old(virgin[..]), trace[..], at, at + 8) then was
                   else if Pristine(old(virgin[..]), trace[..], at, at + 8) then 2 else 1
    ensures forall i :: 0 <= i < virgin.Length ==>
              virgin[i] == if at <= i < at + 8 then Without(old(virgin[i]), trace[i]) else old(virgin[i])
  {
    hide Word, ByteOf, Share, Without, Common, Clear, Load, AnyPristine, Fresh, Pristine;
    var current, old' := Load(trace, at), Load(virgin, at);
    ret := was;
    WordMeets(trace, virgin, at);
    AnyPristineIs(trace, virgin, at);
    if Common(current, old') {
      if ret < 2 {
        if AnyPristine(trace, virgin, at) {
          ret := 2;
        } else {
          ret := 1;
        }
      }
      WordClears(trace, virgin, at);
      Store(virgin, at, Clear(old', current));
    } else {
      NothingShared(trace, virgin, at);
    }
  }

  /** has_new_bits */
  method HasNewBits(trace: array<bv8>, virgin: array<bv8>, ghost history: seq<seq<bv8>>) returns (ret: int)
    requires trace != virgin && trace.Length == virgin.Length && trace.Length % 8 == 0
    requires Complements(virgin[..], history)
    modifies virgin
    ensures ret == Novelty(history, trace[..])
    ensures Complements(virgin[..], history + [trace[..]])
  {
    hide Word, Share, Without, Common, Complements, Verdict;
    ghost var v, t := virgin[..], trace[..];
    ret := 0;
    var at := 0;
    VerdictStart(v, t);
    while at < trace.Length
      invariant 0 <= at <= trace.Length && at % 8 == 0
      invariant ret == Verdict(v, t, at)
      invariant forall i :: 0 <= i < trace.Length ==> virgin[i] == if i < at then Without(v[i], t[i]) else v[i]
    {
      VerdictStep(v, t, at, at + 8);
      SameThere(v, virgin[..], t, at, at + 8);
      WordIsZero(trace, at);
      if Load(trace, at) != 0 {
        ret := DiscoverWord(trace, virgin, at, ret);
      } else {
        NothingSet(v, t, at, at + 8);
      }
      at := at + 8;
    }
    VerdictIsNovelty(v, history, t);
    ComplementsNext(v, history, t, virgin[..]);
  }

  lemma WordIsZero(m: array<bv8>, at: nat)
    requires at + 8 <= m.Length
    ensures Load(m, at) == 0 <==> forall i :: at <= i < at + 8 ==> m[i] == 0
  {
    ZeroWord(m[at], m[at + 1], m[at + 2], m[at + 3], m[at + 4], m[at + 5], m[at + 6], m[at + 7]);
    hide Word;
  }

  // ---- classification ----

  /** classify_word: four lookups of two counts each */
  function ClassifyWord(word: bv64, table: seq<bv16>): bv64
    requires |table| == 0x1_0000
  {
    var mem0, mem1, mem2, mem3 := Half(word, 0), Half(word, 1), Half(word, 2), Half(word, 3);
    FromHalves(table[mem0 as nat], table[mem1 as nat], table[mem2 as nat], table[mem3 as nat])
  }

  function Half(w: bv64, k: nat): bv16
    requires k < 4
  {
    match k
    case 0 => (w & 0xffff) as bv16
    case 1 => ((w >> 16) & 0xffff) as bv16
    case 2 => ((w >> 32) & 0xffff) as bv16
    case _ => ((w >> 48) & 0xffff) as bv16
  }

  function FromHalves(h0: bv16, h1: bv16, h2: bv16, h3: bv16): bv64 {
    (h0 as bv64) | (h1 as bv64 << 16) | (h2 as bv64 << 32) | (h3 as bv64 << 48)
  }

  lemma HalvesOfWord(b0: bv8, b1: bv8, b2: bv8, b3: bv8, b4: bv8, b5: bv8, b6: bv8, b7: bv8)
    ensures var w := Word(b0, b1, b2, b3, b4, b5, b6, b7);
            && Half(w, 0) == Pair(b0, b1) && Half(w, 1) == Pair(b2, b3)
            && Half(w, 2) == Pair(b4, b5) && Half(w, 3) == Pair(b6, b7)
  {
  }

  lemma WordFromHalves(b0: bv8, b1: bv8, b2: bv8, b3: bv8, b4: bv8, b5: bv8, b6: bv8, b7: bv8)
    ensures FromHalves(Pair(b0, b1), Pair(b2, b3), Pair(b4, b5), Pair(b6, b7)) == Word(b0, b1, b2, b3, b4, b5, b6, b7)
  {
  }

  /** The table turns a word into its bytes' classes. */
  lemma ClassesOfWord(b0: bv8, b1: bv8, b2: bv8, b3: bv8, b4: bv8, b5: bv8, b6: bv8, b7: bv8, table: seq<bv16>,
                      look: ClassTable)
    requires TwoAtOnce(table, look)
    ensures ClassifyWord(Word(b0, b1, b2, b3, b4, b5, b6, b7), table)
            == Word(Classified(look, b0), Classified(look, b1), Classified(look, b2), Classified(look, b3),
                    Classified(look, b4), Classified(look, b5), Classified(look, b6), Classified(look, b7))
  {
    HalvesOfWord(b0, b1, b2, b3, b4, b5, b6, b7);
    WordFromHalves(Classified(look, b0), Classified(look, b1), Classified(look, b2), Classified(look, b3),
                   Classified(look, b4), Classified(look, b5), Classified(look, b6), Classified(look, b7));
    hide Word, Half, FromHalves, Pair, Classified;
    assert Look(table, b0, b1) == Pair(Classified(look, b0), Classified(look, b1));
    assert Look(table, b2, b3) == Pair(Classified(look, b2), Classified(look, b3));
    assert Look(table, b4, b5) == Pair(Classified(look, b4), Classified(look, b5));
    assert Look(table, b6, b7) == Pair(Classified(look, b6), Classified(look, b7));
  }

  /** The word that byte i is in is zero. */
  ghost predicate InZeroWord(trace: seq<bv8>, i: nat) {
    forall j :: 0 <= j < |trace| && j / 8 == i / 8 ==> trace[j] == 0
  }

  /** The classes of the bytes, except that words that are zero are skipped. */
  ghost function WordClasses(look: ClassTable, trace: seq<bv8>): (c: seq<bv8>)
    ensures |c| == |trace|
  {
    seq(|trace|, i requires 0 <= i < |trace| => if InZeroWord(trace, i) then 0 else Classified(look, trace[i]))
  }

  lemma ClassesAt(look: ClassTable, trace: seq<bv8>, at: nat)
    requires at % 8 == 0 && at + 8 <= |trace|
    ensures var c := WordClasses(look, trace);
            if forall i :: at <= i < at + 8 ==> trace[i] == 0 then forall i :: at <= i < at + 8 ==> c[i] == 0
            else forall i :: at <= i < at + 8 ==> c[i] == Classified(look, trace[i])
  {
    hide Classified;
    forall i | at <= i < at + 8
      ensures InZeroWord(trace, i) <==> forall j :: at <= j < at + 8 ==> trace[j] == 0
    {
      SameWord(at, i);
      forall j | at <= j < at + 8
        ensures j / 8 == i / 8
      {
        SameWord(at, j);
      }
      forall j | 0 <= j < |trace| && j / 8 == i / 8
        ensures at <= j < at + 8
      {
        InWord(at, i, j);
      }
    }
  }

  lemma SameWord(at: nat, i: nat)
    requires at % 8 == 0 && at <= i < at + 8
    ensures i / 8 == at / 8
  {
  }

  lemma InWord(at: nat, i: nat, j: nat)
    requires at % 8 == 0 && at <= i < at + 8 && j / 8 == i / 8
    ensures at <= j < at + 8
  {
  }

  /** Skipping makes no difference exactly when the table keeps zero. */
  lemma SkippingIsExactIff(look: ClassTable)
    ensures (forall trace: seq<bv8> :: |trace| % 8 == 0 ==> WordClasses(look, trace) == ClassifiedMap(look, trace))
            <==> look[0] == 0
  {
    ClassOfZero(look);
    if look[0] == 0 {
      forall trace: seq<bv8>
        ensures WordClasses(look, trace) == ClassifiedMap(look, trace)
      {
      }
    } else {
      var zeroes: seq<bv8> := seq(8, _ => 0);
      assert InZeroWord(zeroes, 0);
      assert WordClasses(look, zeroes)[0] != ClassifiedMap(look, zeroes)[0];
    }
  }

  /** And the verdicts on unclassified traces are those on classified ones exactly then. */
  lemma VerdictsAgreeIff(look: ClassTable)
    ensures (forall history: seq<seq<bv8>>, trace: seq<bv8> :: |trace| % 8 == 0 && Sized(history, |trace|) ==>
               Novelty(history, WordClasses(look, trace)) == Novelty(history, ClassifiedMap(look, trace)))
            <==> look[0] == 0
  {
    hide WordClasses, ClassifiedMap, Novelty;
    SkippingIsExactIff(look);
    if look[0] == 0 {
      forall trace: seq<bv8> | |trace| % 8 == 0
        ensures WordClasses(look, trace) == ClassifiedMap(look, trace)
      {
      }
    } else {
      var zeroes: seq<bv8> := seq(8, _ => 0);
      assert |zeroes| % 8 == 0 && Sized([], |zeroes|);
      ZeroTrace(look, zeroes);
    }
  }

  lemma ZeroTrace(look: ClassTable, zeroes: seq<bv8>)
    requires |zeroes| == 8 && look[0] != 0 && forall i :: 0 <= i < 8 ==> zeroes[i] == 0
    ensures Novelty([], WordClasses(look, zeroes)) == 0 && Novelty([], ClassifiedMap(look, zeroes)) == 2
  {
    ClassOfZero(look);
    var c := ClassifiedMap(look, zeroes);
    assert c[0] != 0 && FirstHit([], 0);
    forall i, b: bv8 | 0 <= i < 8
      ensures !Share(WordClasses(look, zeroes)[i], b)
    {
      assert InZeroWord(zeroes, i);
      ZeroLacks(b);
    }
  }

  /** classify_counts */
  method ClassifyCounts(trace: array<bv8>, table: seq<bv16>, ghost look: ClassTable)
    requires |table| == 0x1_0000 && TwoAtOnce(table, look) && trace.Length % 8 == 0
    modifies trace
    ensures trace[..] == WordClasses(look, old(trace[..]))
  {
    hide Word, Classified, ByteOf, ClassifyWord, TwoAtOnce, WordClasses;
    ghost var t := trace[..];
    ghost var c := WordClasses(look, t);
    var at := 0;
    while at < trace.Length
      invariant 0 <= at <= trace.Length && at % 8 == 0
      invariant forall i :: 0 <= i < trace.Length ==> trace[i] == if i < at then c[i] else t[i]
    {
      WordIsZero(trace, at);
      ClassesAt(look, t, at);
      if Load(trace, at) != 0 {
        BytesClassified(trace, at, table, look);
        Store(trace, at, ClassifyWord(Load(trace, at), table));
      }
      at := at + 8;
    }
  }

  lemma BytesClassified(m: array<bv8>, at: nat, table: seq<bv16>, look: ClassTable)
    requires at + 8 <= m.Length && |table| == 0x1_0000 && TwoAtOnce(table, look)
    ensures forall i :: at <= i < at + 8 ==> ByteOf(ClassifyWord(Load(m, at), table), i - at) == Classified(look, m[i])
  {
    hide Load, ByteOf, Classified, ClassifyWord, TwoAtOnce;
    forall i | at <= i < at + 8
      ensures ByteOf(ClassifyWord(Load(m, at), table), i - at) == Classified(look, m[i])
    {
      ByteClassified(m, at, i - at, table, look);
    }
  }

  lemma ByteClassified(m: array<bv8>, at: nat, k: nat, table: seq<bv16>, look: ClassTable)
    requires at + 8 <= m.Length && k < 8 && |table| == 0x1_0000 && TwoAtOnce(table, look)
    ensures ByteOf(ClassifyWord(Load(m, at), table), k) == Classified(look, m[at + k])
  {
    hide Word, ByteOf, Classified, ClassifyWord, TwoAtOnce;
    ClassesOfWord(m[at], m[at + 1], m[at + 2], m[at + 3], m[at + 4], m[at + 5], m[at + 6], m[at + 7], table, look);
    BytesOfWord(Classified(look, m[at]), Classified(look, m[at + 1]),
                Classified(look, m[at + 2]), Classified(look, m[at + 3]),
                Classified(look, m[at + 4]), Classified(look, m[at + 5]),
                Classified(look, m[at + 6]), Classified(look, m[at + 7]));
    if k == 0 {
    } else if k == 1 {
    } else if k == 2 {
    } else if k == 3 {
    } else if k == 4 {
    } else if k == 5 {
    } else if k == 6 {
    }
  }

  // ---- skim ----

  /** A word that is not zero and whose classes share a bit with the virgin map. */
  lemma ClassesMeet(trace: array<bv8>, virgin: array<bv8>, at: nat, table: seq<bv16>, look: ClassTable)
    requires at % 8 == 0 && at + 8 <= trace.Length == virgin.Length
    requires |table| == 0x1_0000 && TwoAtOnce(table, look)
    ensures Load(trace, at) != 0 && Common(ClassifyWord(Load(trace, at), table), Load(virgin, at))
            <==> Fresh(virgin[..], WordClasses(look, trace[..]), at, at + 8)
  {
    hide Word, Share, Common, Classified, ClassifyWord, TwoAtOnce, WordClasses, Fresh;
    ghost var v, t := virgin[..], trace[..];
    ghost var c := WordClasses(look, t);
    WordIsZero(trace, at);
    ClassesAt(look, t, at);
    if Load(trace, at) == 0 {
      NothingSet(v, c, at, at + 8);
    } else {
      ClassesOfWord(trace[at], trace[at + 1], trace[at + 2], trace[at + 3], trace[at + 4], trace[at + 5],
                    trace[at + 6], trace[at + 7], table, look);
      SharedBits(c[at], c[at + 1], c[at + 2], c[at + 3], c[at + 4], c[at + 5], c[at + 6], c[at + 7],
                 v[at], v[at + 1], v[at + 2], v[at + 3], v[at + 4], v[at + 5], v[at + 6], v[at + 7]);
      FreshInWord(v, c, at);
    }
  }

  lemma Pack32(at: nat, len: nat)
    requires at % 32 == 0 && len % 32 == 0 && at < len
    ensures at % 8 == 0 && at + 32 <= len && (at + 32) % 32 == 0
  {
    var n, m := at / 32, len / 32;
    assert at == 32 * n && len == 32 * m && n + 1 <= m;
    assert at + 32 == 32 * (n + 1) && at == 8 * (4 * n);
  }

  method SkimScalarPack(virgin: array<bv8>, trace: array<bv8>, table: seq<bv16>, ghost look: ClassTable, at: nat)
    returns (found: bool)
    requires at % 8 == 0 && at + 32 <= trace.Length == virgin.Length
    requires |table| == 0x1_0000 && TwoAtOnce(table, look)
    requires !Fresh(virgin[..], WordClasses(look, trace[..]), 0, at)
    ensures found <==> Fresh(virgin[..], WordClasses(look, trace[..]), 0, at + 32)
    ensures found ==> Fresh(virgin[..], WordClasses(look, trace[..]), 0, trace.Length)
  {
    hide Word, Common, ClassifyWord, TwoAtOnce, WordClasses, Fresh, LoadLane, ZeroLane, ClassesNew;
    for x := 0 to 4
      invariant !Fresh(virgin[..], WordClasses(look, trace[..]), 0, at + 8 * x)
    {
      LaneMeets(trace, virgin, at, x, table, look);
      if !ZeroLane(trace, at, x) && ClassesNew(trace, virgin, at, x, table) {
        FreshGrows(virgin[..], WordClasses(look, trace[..]), at + 8 * (x + 1), at + 32);
        return true;
      }
    }
    found := false;
  }

  /** The portable form. */
  method SkimScalar(virgin: array<bv8>, trace: array<bv8>, table: seq<bv16>, ghost look: ClassTable) returns (r: int)
    requires trace.Length == virgin.Length && trace.Length % 32 == 0
    requires |table| == 0x1_0000 && TwoAtOnce(table, look)
    ensures r == if Fresh(virgin[..], WordClasses(look, trace[..]), 0, trace.Length) then 1 else 0
  {
    hide Word, Common, ClassifyWord, TwoAtOnce, WordClasses, Fresh, LoadLane, ZeroLane, ClassesNew;
    ghost var v, c := virgin[..], WordClasses(look, trace[..]);
    FreshNowhere(v, c);
    var at := 0;
    while at < trace.Length
      invariant 0 <= at <= trace.Length && at % 32 == 0
      invariant !Fresh(v, c, 0, at)
    {
      Pack32(at, trace.Length);
      var found := SkimScalarPack(virgin, trace, table, look, at);
      if found {
        return 1;
      }
      at := at + 32;
    }
    r := 0;
  }

  // ---- skim with vector compares ----

  /** Eight bits of the mask for each of four lanes, set where the lane is zero. */
  function MaskOfZeroes(z0: bool, z1: bool, z2: bool, z3: bool): bv32 {
    (if z0 then 0xff else 0) | (if z1 then 0xff00 else 0)
    | (if z2 then 0xff_0000 else 0) | (if z3 then 0xff00_0000 else 0)
  }

  predicate FullMask4(mask: bv32) { mask == 0xffff_ffff }

  predicate LaneSet4(mask: bv32, x: nat)
    requires x < 4
  {
    match x
    case 0 => mask & 0xff != 0
    case 1 => mask & 0xff00 != 0
    case 2 => mask & 0xff_0000 != 0
    case _ => mask & 0xff00_0000 != 0
  }

  lemma Mask4Tells(z0: bool, z1: bool, z2: bool, z3: bool)
    ensures var mask := MaskOfZeroes(z0, z1, z2, z3);
            && (LaneSet4(mask, 0) <==> z0) && (LaneSet4(mask, 1) <==> z1)
            && (LaneSet4(mask, 2) <==> z2) && (LaneSet4(mask, 3) <==> z3)
            && (FullMask4(mask) <==> z0 && z1 && z2 && z3)
  {
  }

  function Mask4(m: array<bv8>, at: nat): bv32
    requires at + 32 <= m.Length
    reads m
  {
    MaskOfZeroes(ZeroLane(m, at, 0), ZeroLane(m, at, 1), ZeroLane(m, at, 2), ZeroLane(m, at, 3))
  }

  lemma Mask4Is(m: array<bv8>, at: nat)
    requires at + 32 <= m.Length
    ensures forall x :: 0 <= x < 4 ==> (LaneSet4(Mask4(m, at), x) <==> ZeroLane(m, at, x))
    ensures FullMask4(Mask4(m, at)) <==> forall x :: 0 <= x < 4 ==> ZeroLane(m, at, x)
  {
    Mask4Tells(ZeroLane(m, at, 0), ZeroLane(m, at, 1), ZeroLane(m, at, 2), ZeroLane(m, at, 3));
    var mask := Mask4(m, at);
    hide ZeroLane, FullMask4, LaneSet4, MaskOfZeroes, Mask4;
    forall x | 0 <= x < 4
      ensures LaneSet4(mask, x) <==> ZeroLane(m, at, x)
    {
      assert x == 0 || x == 1 || x == 2 || x == 3;
    }
  }

  function LoadLane(m: array<bv8>, at: nat, x: nat): bv64
    requires at + 8 * x + 8 <= m.Length
    reads m
  {
    Load(m, at + 8 * x)
  }

  predicate ZeroLane(m: array<bv8>, at: nat, x: nat)
    requires at + 8 * x + 8 <= m.Length
    reads m
  {
    LoadLane(m, at, x) == 0
  }

  /** The classes of a lane share a bit with the virgin map. */
  predicate ClassesNew(trace: array<bv8>, virgin: array<bv8>, at: nat, x: nat, table: seq<bv16>)
    requires at + 8 * x + 8 <= trace.Length == virgin.Length && |table| == 0x1_0000
    reads trace, virgin
  {
    Common(ClassifyWord(LoadLane(trace, at, x), table), LoadLane(virgin, at, x))
  }

  lemma Aligned(at: nat, x: nat)
    requires at % 8 == 0
    ensures (at + 8 * x) % 8 == 0
  {
  }

  /** The test of one more word. */
  lemma WordFresh(trace: array<bv8>, virgin: array<bv8>, at: nat, table: seq<bv16>, look: ClassTable)
    requires at % 8 == 0 && at + 8 <= trace.Length == virgin.Length && |table| == 0x1_0000
             && TwoAtOnce(table, look)
    requires !Fresh(virgin[..], WordClasses(look, trace[..]), 0, at)
    ensures Load(trace, at) != 0 && Common(ClassifyWord(Load(trace, at), table), Load(virgin, at))
            <==> Fresh(virgin[..], WordClasses(look, trace[..]), 0, at + 8)
    ensures Fresh(virgin[..], WordClasses(look, trace[..]), 0, at + 8) ==>
              Fresh(virgin[..], WordClasses(look, trace[..]), 0, trace.Length)
  {
    hide Word, Common, ClassifyWord, TwoAtOnce, WordClasses, Fresh, Load;
    ghost var v, c := virgin[..], WordClasses(look, trace[..]);
    ClassesMeet(trace, virgin, at, table, look);
    FreshSplits(v, c, at, at + 8);
    if Fresh(v, c, 0, at + 8) {
      FreshSpreads(v, c, at + 8);
    }
  }

  /** What the test of one lane tells about the search so far and as a whole. */
  lemma LaneMeets(trace: array<bv8>, virgin: array<bv8>, at: nat, x: nat, table: seq<bv16>, look: ClassTable)
    requires at % 8 == 0 && at + 8 * (x + 1) <= trace.Length == virgin.Length && |table| == 0x1_0000
             && TwoAtOnce(table, look)
    requires !Fresh(virgin[..], WordClasses(look, trace[..]), 0, at + 8 * x)
    ensures !ZeroLane(trace, at, x) && ClassesNew(trace, virgin, at, x, table)
            <==> Fresh(virgin[..], WordClasses(look, trace[..]), 0, at + 8 * (x + 1))
    ensures Fresh(virgin[..], WordClasses(look, trace[..]), 0, at + 8 * (x + 1)) ==>
              Fresh(virgin[..], WordClasses(look, trace[..]), 0, trace.Length)
  {
    hide Word, Common, ClassifyWord, TwoAtOnce, WordClasses, Fresh, Load;
    Aligned(at, x);
    WordFresh(trace, virgin, at + 8 * x, table, look);
  }

  lemma {:induction false} ZeroLanes(trace: array<bv8>, virgin: array<bv8>, at: nat, n: nat, table: seq<bv16>,
                                     look: ClassTable)
    requires at % 8 == 0 && at + 8 * n <= trace.Length == virgin.Length && |table| == 0x1_0000 && TwoAtOnce(table, look)
    requires forall x :: 0 <= x < n ==> ZeroLane(trace, at, x)
    requires !Fresh(virgin[..], WordClasses(look, trace[..]), 0, at)
    ensures !Fresh(virgin[..], WordClasses(look, trace[..]), 0, at + 8 * n)
  {
    hide Word, Common, ClassifyWord, TwoAtOnce, WordClasses, Fresh, Load;
    if n > 0 {
      ZeroLanes(trace, virgin, at, n - 1, table, look);
      LaneMeets(trace, virgin, at, n - 1, table, look);
      assert ZeroLane(trace, at, n - 1);
    }
  }

  method SkimAvx2Pack(virgin: array<bv8>, trace: array<bv8>, table: seq<bv16>, ghost look: ClassTable, at: nat)
    returns (found: bool)
    requires at % 8 == 0 && at + 32 <= trace.Length == virgin.Length
    requires |table| == 0x1_0000 && TwoAtOnce(table, look)
    requires !Fresh(virgin[..], WordClasses(look, trace[..]), 0, at)
    ensures found <==> Fresh(virgin[..], WordClasses(look, trace[..]), 0, at + 32)
    ensures found ==> Fresh(virgin[..], WordClasses(look, trace[..]), 0, trace.Length)
  {
    hide Word, Common, ClassifyWord, TwoAtOnce, WordClasses, Fresh, LoadLane, ZeroLane, ClassesNew, LaneSet4, Mask4,
         FullMask4;
    var mask := Mask4(trace, at);
    Mask4Is(trace, at);
    if FullMask4(mask) {
      ZeroLanes(trace, virgin, at, 4, table, look);
      return false;
    }
    for x := 0 to 4
      invariant !Fresh(virgin[..], WordClasses(look, trace[..]), 0, at + 8 * x)
    {
      LaneMeets(trace, virgin, at, x, table, look);
      if !LaneSet4(mask, x) && ClassesNew(trace, virgin, at, x, table) {
        FreshGrows(virgin[..], WordClasses(look, trace[..]), at + 8 * (x + 1), at + 32);
        return true;
      }
    }
    found := false;
  }

  /** The AVX2 form steps over four zero words at once. */
  method SkimAvx2(virgin: array<bv8>, trace: array<bv8>, table: seq<bv16>, ghost look: ClassTable) returns (r: int)
    requires trace.Length == virgin.Length && trace.Length % 32 == 0
    requires |table| == 0x1_0000 && TwoAtOnce(table, look)
    ensures r == if Fresh(virgin[..], WordClasses(look, trace[..]), 0, trace.Length) then 1 else 0
  {
    hide Word, Common, ClassifyWord, TwoAtOnce, WordClasses, Fresh, LoadLane, ZeroLane, ClassesNew;
    ghost var v, c := virgin[..], WordClasses(look, trace[..]);
    FreshNowhere(v, c);
    var at := 0;
    while at < trace.Length
      invariant 0 <= at <= trace.Length && at % 32 == 0
      invariant !Fresh(v, c, 0, at)
    {
      Pack32(at, trace.Length);
      var found := SkimAvx2Pack(virgin, trace, table, look, at);
      if found {
        return 1;
      }
      at := at + 32;
    }
    r := 0;
  }

  /** One bit of the mask for each of eight lanes, set where the lane is zero. */
  function MaskOfTests(z0: bool, z1: bool, z2: bool, z3: bool, z4: bool, z5: bool, z6: bool, z7: bool): bv8 {
    (if z0 then 1 else 0) | (if z1 then 2 else 0) | (if z2 then 4 else 0) | (if z3 then 8 else 0)
    | (if z4 then 16 else 0) | (if z5 then 32 else 0) | (if z6 then 64 else 0) | (if z7 then 128 else 0)
  }

  predicate FullMask8(mask: bv8) { mask == 0xff }

  predicate LaneSet8(mask: bv8, x: nat)
    requires x < 8
  {
    mask & (1 << x) != 0
  }

  lemma Mask8Tells(z0: bool, z1: bool, z2: bool, z3: bool, z4: bool, z5: bool, z6: bool, z7: bool)
    ensures var mask := MaskOfTests(z0, z1, z2, z3, z4, z5, z6, z7);
            && (LaneSet8(mask, 0) <==> z0) && (LaneSet8(mask, 1) <==> z1)
            && (LaneSet8(mask, 2) <==> z2) && (LaneSet8(mask, 3) <==> z3)
            && (LaneSet8(mask, 4) <==> z4) && (LaneSet8(mask, 5) <==> z5)
            && (LaneSet8(mask, 6) <==> z6) && (LaneSet8(mask, 7) <==> z7)
            && (FullMask8(mask) <==> z0 && z1 && z2 && z3 && z4 && z5 && z6 && z7)
  {
  }

  function Mask8(m: array<bv8>, at: nat): bv8
    requires at + 64 <= m.Length
    reads m
  {
    MaskOfTests(ZeroLane(m, at, 0), ZeroLane(m, at, 1), ZeroLane(m, at, 2), ZeroLane(m, at, 3),
                ZeroLane(m, at, 4), ZeroLane(m, at, 5), ZeroLane(m, at, 6), ZeroLane(m, at, 7))
  }

  lemma Mask8Is(m: array<bv8>, at: nat)
    requires at + 64 <= m.Length
    ensures forall x :: 0 <= x < 8 ==> (LaneSet8(Mask8(m, at), x) <==> ZeroLane(m, at, x))
    ensures FullMask8(Mask8(m, at)) <==> forall x :: 0 <= x < 8 ==> ZeroLane(m, at, x)
  {
    Mask8Tells(ZeroLane(m, at, 0), ZeroLane(m, at, 1), ZeroLane(m, at, 2), ZeroLane(m, at, 3),
               ZeroLane(m, at, 4), ZeroLane(m, at, 5), ZeroLane(m, at, 6), ZeroLane(m, at, 7));
    var mask := Mask8(m, at);
    hide ZeroLane, FullMask8, LaneSet8, MaskOfTests, Mask8;
    forall x | 0 <= x < 8
      ensures LaneSet8(mask, x) <==> ZeroLane(m, at, x)
    {
      assert x == 0 || x == 1 || x == 2 || x == 3 || x == 4 || x == 5 || x == 6 || x == 7;
    }
  }

  lemma Pack64(at: nat, len: nat)
    requires at % 64 == 0 && len % 64 == 0 && at < len
    ensures at % 8 == 0 && at + 64 <= len && (at + 64) % 64 == 0
  {
    var n, m := at / 64, len / 64;
    assert at == 64 * n && len == 64 * m && n + 1 <= m;
    assert at + 64 == 64 * (n + 1) && at == 8 * (8 * n);
  }

  method SkimAvx512Pack(virgin: array<bv8>, trace: array<bv8>, table: seq<bv16>, ghost look: ClassTable, at: nat)
    returns (found: bool)
    requires at % 8 == 0 && at + 64 <= trace.Length == virgin.Length
    requires |table| == 0x1_0000 && TwoAtOnce(table, look)
    requires !Fresh(virgin[..], WordClasses(look, trace[..]), 0, at)
    ensures found <==> Fresh(virgin[..], WordClasses(look, trace[..]), 0, at + 64)
    ensures found ==> Fresh(virgin[..], WordClasses(look, trace[..]), 0, trace.Length)
  {
    hide Word, Common, ClassifyWord, TwoAtOnce, WordClasses, Fresh, LoadLane, ZeroLane, ClassesNew, LaneSet8, Mask8,
         FullMask8;
    var mask := Mask8(trace, at);
    Mask8Is(trace, at);
    if FullMask8(mask) {
      ZeroLanes(trace, virgin, at, 8, table, look);
      return false;
    }
    for x := 0 to 8
      invariant !Fresh(virgin[..], WordClasses(look, trace[..]), 0, at + 8 * x)
    {
      LaneMeets(trace, virgin, at, x, table, look);
      if !LaneSet8(mask, x) && ClassesNew(trace, virgin, at, x, table) {
        FreshGrows(virgin[..], WordClasses(look, trace[..]), at + 8 * (x + 1), at + 64);
        return true;
      }
    }
    found := false;
  }

  /** The AVX512 form steps over eight. */
  method SkimAvx512(virgin: array<bv8>, trace: array<bv8>, table: seq<bv16>, ghost look: ClassTable) returns (r: int)
    requires trace.Length == virgin.Length && trace.Length % 64 == 0
    requires |table| == 0x1_0000 && TwoAtOnce(table, look)
    ensures r == if Fresh(virgin[..], WordClasses(look, trace[..]), 0, trace.Length) then 1 else 0
  {
    hide Word, Common, ClassifyWord, TwoAtOnce, WordClasses, Fresh, LoadLane, ZeroLane, ClassesNew;
    ghost var v, c := virgin[..], WordClasses(look, trace[..]);
    FreshNowhere(v, c);
    var at := 0;
    while at != trace.Length
      invariant 0 <= at <= trace.Length && at % 64 == 0
      invariant !Fresh(v, c, 0, at)
    {
      Pack64(at, trace.Length);
      var found := SkimAvx512Pack(virgin, trace, table, look, at);
      if found {
        return 1;
      }
      at := at + 64;
    }
    r := 0;
  }

  // ---- has_new_bits_unclassified ----

  /** The form of skim that the build chose. */
  datatype Form = Scalar | Avx2 | Avx512

  method Skim(form: Form, virgin: array<bv8>, trace: array<bv8>, table: seq<bv16>, ghost look: ClassTable)
    returns (r: int)
    requires trace.Length == virgin.Length && trace.Length % 64 == 0
    requires |table| == 0x1_0000 && TwoAtOnce(table, look)
    ensures r == if Fresh(virgin[..], WordClasses(look, trace[..]), 0, trace.Length) then 1 else 0
  {
    hide TwoAtOnce, Fresh, WordClasses;
    match form
    case Scalar => r := SkimScalar(virgin, trace, table, look);
    case Avx2 => r := SkimAvx2(virgin, trace, table, look);
    case Avx512 => r := SkimAvx512(virgin, trace, table, look);
  }

  /** The fast path leaves both maps alone, and is as if the classified trace had been folded in. */
  method HasNewBitsUnclassified(form: Form, trace: array<bv8>, virgin: array<bv8>, table: seq<bv16>,
                                ghost look: ClassTable, ghost history: seq<seq<bv8>>)
    returns (ret: int)
    requires trace != virgin && trace.Length == virgin.Length && trace.Length % 64 == 0
    requires |table| == 0x1_0000 && TwoAtOnce(table, look)
    requires Complements(virgin[..], history)
    modifies trace, virgin
    ensures ret == Novelty(history, WordClasses(look, old(trace[..])))
    ensures Complements(virgin[..], history + [WordClasses(look, old(trace[..]))])
    ensures ret == 0 ==> trace[..] == old(trace[..]) && virgin[..] == old(virgin[..])
    ensures ret != 0 ==> trace[..] == WordClasses(look, old(trace[..]))
  {
    hide TwoAtOnce, Fresh, WordClasses, Complements, Novelty, Verdict;
    ghost var v, c := virgin[..], WordClasses(look, trace[..]);
    var seen := Skim(form, virgin, trace, table, look);
    NothingFresh(v, history, c);
    if seen == 0 {
      return 0;
    }
    ClassifyCounts(trace, table, look);
    ret := HasNewBits(trace, virgin, history);
  }

  // ---- simplify_trace ----

  method SimplifyTrace(trace: array<bv8>)
    requires trace.Length % 8 == 0
    modifies trace
    ensures forall i :: 0 <= i < trace.Length ==> trace[i] == if old(trace[i]) == 0 then 1 else 128
  {
    hide Word, ByteOf;
    var at := 0;
    while at < trace.Length
      invariant 0 <= at <= trace.Length && at % 8 == 0
      invariant forall i :: 0 <= i < trace.Length ==>
                  trace[i] == if i < at then Simplified(old(trace[i])) else old(trace[i])
    {
      WordIsZero(trace, at);
      if Load(trace, at) != 0 {
        for x := 0 to 8
          invariant forall i :: 0 <= i < trace.Length ==>
                      trace[i] == if i < at + x then Simplified(old(trace[i])) else old(trace[i])
        {
          trace[at + x] := Simplified(trace[at + x]);
        }
      } else {
        BytesOfOnes();
        Store(trace, at, 0x0101_0101_0101_0101);
      }
      at := at + 8;
    }
  }

  lemma BytesOfOnes()
    ensures forall k: nat :: k < 8 ==> ByteOf(0x0101_0101_0101_0101, k) == 1
  {
  }
}
