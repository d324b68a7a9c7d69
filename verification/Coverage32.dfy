/** The coverage routines on 32-bit words of the maps. */
module Coverage32 {
  import opened Coverage

  // ---- words ----

  function Word(b0: bv8, b1: bv8, b2: bv8, b3: bv8): bv32 {
    (b0 as bv32) | (b1 as bv32 << 8) | (b2 as bv32 << 16) | (b3 as bv32 << 24)
  }

  function ByteOf(w: bv32, k: nat): bv8
    requires k < 4
  {
    match k
    case 0 => (w & 0xff) as bv8
    case 1 => ((w >> 8) & 0xff) as bv8
    case 2 => ((w >> 16) & 0xff) as bv8
    case _ => ((w >> 24) & 0xff) as bv8
  }

  function Load(m: array<bv8>, at: nat): bv32
    requires at + 4 <= m.Length
    reads m
  {
    Word(m[at], m[at + 1], m[at + 2], m[at + 3])
  }

  method Store(m: array<bv8>, at: nat, w: bv32)
    requires at + 4 <= m.Length
    modifies m
    ensures forall i :: 0 <= i < m.Length ==> m[i] == if at <= i < at + 4 then ByteOf(w, i - at) else old(m[i])
  {
    for k := 0 to 4
      invariant forall i :: 0 <= i < m.Length ==> m[i] == if at <= i < at + k then ByteOf(w, i - at) else old(m[i])
    {
      m[at + k] := ByteOf(w, k);
    }
  }

  lemma BytesOfWord(b0: bv8, b1: bv8, b2: bv8, b3: bv8)
    ensures var w := Word(b0, b1, b2, b3);
            ByteOf(w, 0) == b0 && ByteOf(w, 1) == b1 && ByteOf(w, 2) == b2 && ByteOf(w, 3) == b3
  {
  }

  lemma ZeroWord(b0: bv8, b1: bv8, b2: bv8, b3: bv8)
    ensures Word(b0, b1, b2, b3) == 0 <==> b0 == b1 == b2 == b3 == 0
  {
  }

  predicate Common(w: bv32, v: bv32) { w & v != 0 }

  function Clear(w: bv32, v: bv32): bv32 { w & !v }

  lemma AndWords(b0: bv8, b1: bv8, b2: bv8, b3: bv8, c0: bv8, c1: bv8, c2: bv8, c3: bv8)
    ensures Word(b0, b1, b2, b3) & Word(c0, c1, c2, c3) == Word(b0 & c0, b1 & c1, b2 & c2, b3 & c3)
  {
  }

  lemma SharedBits(b0: bv8, b1: bv8, b2: bv8, b3: bv8, c0: bv8, c1: bv8, c2: bv8, c3: bv8)
    ensures Common(Word(b0, b1, b2, b3), Word(c0, c1, c2, c3))
            <==> Share(b0, c0) || Share(b1, c1) || Share(b2, c2) || Share(b3, c3)
  {
    AndWords(b0, b1, b2, b3, c0, c1, c2, c3);
    ZeroWord(b0 & c0, b1 & c1, b2 & c2, b3 & c3);
    hide Word;
  }

  lemma ClearedBits(b0: bv8, b1: bv8, b2: bv8, b3: bv8, c0: bv8, c1: bv8, c2: bv8, c3: bv8)
    ensures Clear(Word(b0, b1, b2, b3), Word(c0, c1, c2, c3))
            == Word(Without(b0, c0), Without(b1, c1), Without(b2, c2), Without(b3, c3))
  {
  }

  lemma FreshInWord(virgin: seq<bv8>, trace: seq<bv8>, at: nat)
    requires at + 4 <= |virgin| == |trace|
    ensures Fresh(virgin, trace, at, at + 4)
            <==> Share(trace[at], virgin[at]) || Share(trace[at + 1], virgin[at + 1])
                 || Share(trace[at + 2], virgin[at + 2]) || Share(trace[at + 3], virgin[at + 3])
  {
    hide Share;
  }

  lemma WordMeets(trace: array<bv8>, virgin: array<bv8>, at: nat)
    requires at + 4 <= trace.Length == virgin.Length
    ensures Common(Load(trace, at), Load(virgin, at)) <==> Fresh(virgin[..], trace[..], at, at + 4)
  {
    SharedBits(trace[at], trace[at + 1], trace[at + 2], trace[at + 3],
               virgin[at], virgin[at + 1], virgin[at + 2], virgin[at + 3]);
    FreshInWord(virgin[..], trace[..], at);
    hide Word, Share, Common, Fresh;
  }

  lemma WordClears(trace: array<bv8>, virgin: array<bv8>, at: nat)
    requires at + 4 <= trace.Length == virgin.Length
    ensures forall i :: at <= i < at + 4 ==>
              ByteOf(Clear(Load(virgin, at), Load(trace, at)), i - at) == Without(virgin[i], trace[i])
  {
    hide Load, ByteOf, Without, Clear;
    forall i | at <= i < at + 4
      ensures ByteOf(Clear(Load(virgin, at), Load(trace, at)), i - at) == Without(virgin[i], trace[i])
    {
      ByteClears(trace, virgin, at, i - at);
    }
  }

  lemma ByteClears(trace: array<bv8>, virgin: array<bv8>, at: nat, k: nat)
    requires at + 4 <= trace.Length == virgin.Length && k < 4
    ensures ByteOf(Clear(Load(virgin, at), Load(trace, at)), k) == Without(virgin[at + k], trace[at + k])
  {
    hide Word, ByteOf, Without, Clear;
    ClearedBits(virgin[at], virgin[at + 1], virgin[at + 2], virgin[at + 3],
                trace[at], trace[at + 1], trace[at + 2], trace[at + 3]);
    BytesOfWord(Without(virgin[at], trace[at]), Without(virgin[at + 1], trace[at + 1]),
                Without(virgin[at + 2], trace[at + 2]), Without(virgin[at + 3], trace[at + 3]));
    if k == 0 {
    } else if k == 1 {
    } else if k == 2 {
    }
  }

  lemma WordIsZero(m: array<bv8>, at: nat)
    requires at + 4 <= m.Length
    ensures Load(m, at) == 0 <==> forall i :: at <= i < at + 4 ==> m[i] == 0
  {
    ZeroWord(m[at], m[at + 1], m[at + 2], m[at + 3]);
    hide Word;
  }

  // ---- has_new_bits ----

  predicate AnyPristine(trace: array<bv8>, virgin: array<bv8>, at: nat)
    requires at + 4 <= trace.Length == virgin.Length
    reads trace, virgin
  {
    || (trace[at] != 0 && virgin[at] == 0xff) || (trace[at + 1] != 0 && virgin[at + 1] == 0xff)
    || (trace[at + 2] != 0 && virgin[at + 2] == 0xff) || (trace[at + 3] != 0 && virgin[at + 3] == 0xff)
  }

  lemma AnyPristineIs(trace: array<bv8>, virgin: array<bv8>, at: nat)
    requires at + 4 <= trace.Length == virgin.Length
    ensures AnyPristine(trace, virgin, at) <==> Pristine(virgin[..], trace[..], at, at + 4)
  {
    ghost var v, t := virgin[..], trace[..];
    assert forall i :: at <= i < at + 4 ==> v[i] == virgin[i] && t[i] == trace[i];
    if AnyPristine(trace, virgin, at) {
      assert exists i :: at <= i < at + 4 && t[i] != 0 && v[i] == 0xff;
    }
  }

  lemma NothingShared(trace: array<bv8>, virgin: array<bv8>, at: nat)
    requires at + 4 <= trace.Length == virgin.Length
    requires !Fresh(virgin[..], trace[..], at, at + 4)
    ensures forall i :: at <= i < at + 4 ==> Without(virgin[i], trace[i]) == virgin[i]
  {
    hide Share, Without;
    forall i | at <= i < at + 4
      ensures Without(virgin[i], trace[i]) == virgin[i]
    {
      assert virgin[..][i] == virgin[i] && trace[..][i] == trace[i];
      Untouched(virgin[i], trace[i]);
    }
  }

  method DiscoverWord(trace: array<bv8>, virgin: array<bv8>, at: nat, was: int) returns (ret: int)
    requires trace != virgin && at + 4 <= trace.Length == virgin.Length
    modifies virgin
    ensures ret == if was >= 2 || !Fresh(old(virgin[..]), trace[..], at, at + 4) then was
                   else if Pristine(old(virgin[..]), trace[..], at, at + 4) then 2 else 1
    ensures forall i :: 0 <= i < virgin.Length ==>
              virgin[i] == if at <= i < at + 4 then Without(old(virgin[i]), trace[i]) else old(virgin[i])
  {
    hide Word, ByteOf, Share, Without, Common, Clear, Load, AnyPristine, Fresh, Pristine;
    var current, old' := Load(trace, at), Load(virgin, at);
    ret := was;
    WordMeets(trace, virgin, at);
    AnyPristineIs(trace, virgin, at);
    if Common(current, old') {
      if ret < 2 {
        if AnyPristine(trace, virgin, at) {
          ret := 2;
        } else {
          ret := 1;
        }
      }
      WordClears(trace, virgin, at);
      Store(virgin, at, Clear(old', current));
    } else {
      NothingShared(trace, virgin, at);
    }
  }

  method HasNewBits(trace: array<bv8>, virgin: array<bv8>, ghost history: seq<seq<bv8>>) returns (ret: int)
    requires trace != virgin && trace.Length == virgin.Length && trace.Length % 4 == 0
    requires Complements(virgin[..], history)
    modifies virgin
    ensures ret == Novelty(history, trace[..])
    ensures Complements(virgin[..], history + [trace[..]])
  {
    hide Word, Share, Without, Common, Complements, Verdict;
    ghost var v, t := virgin[..], trace[..];
    ret := 0;
    var at := 0;
    VerdictStart(v, t);
    while at < trace.Length
      invariant 0 <= at <= trace.Length && at % 4 == 0
      invariant ret == Verdict(v, t, at)
      invariant forall i :: 0 <= i < trace.Length ==> virgin[i] == if i < at then Without(v[i], t[i]) else v[i]
    {
      VerdictStep(v, t, at, at + 4);
      SameThere(v, virgin[..], t, at, at + 4);
      WordIsZero(trace, at);
      if Load(trace, at) != 0 {
        ret := DiscoverWord(trace, virgin, at, ret);
      } else {
        NothingSet(v, t, at, at + 4);
      }
      at := at + 4;
    }
    VerdictIsNovelty(v, history, t);
    ComplementsNext(v, history, t, virgin[..]);
  }

  // ---- classification ----

  function ClassifyWord(word: bv32, table: seq<bv16>): bv32
    requires |table| == 0x1_0000
  {
    var mem0, mem1 := Half(word, 0), Half(word, 1);
    FromHalves(table[mem0 as nat], table[mem1 as nat])
  }

  function Half(w: bv32, k: nat): bv16
    requires k < 2
  {
    if k == 0 then (w & 0xffff) as bv16 else ((w >> 16) & 0xffff) as bv16
  }

  function FromHalves(h0: bv16, h1: bv16): bv32 { (h0 as bv32) | (h1 as bv32 << 16) }

  lemma HalvesOfWord(b0: bv8, b1: bv8, b2: bv8, b3: bv8)
    ensures var w := Word(b0, b1, b2, b3); Half(w, 0) == Pair(b0, b1) && Half(w, 1) == Pair(b2, b3)
    ensures FromHalves(Pair(b0, b1), Pair(b2, b3)) == Word(b0, b1, b2, b3)
  {
  }

  lemma ClassesOfWord(b0: bv8, b1: bv8, b2: bv8, b3: bv8, table: seq<bv16>, look: ClassTable)
    requires TwoAtOnce(table, look)
    ensures ClassifyWord(Word(b0, b1, b2, b3), table)
            == Word(Classified(look, b0), Classified(look, b1), Classified(look, b2), Classified(look, b3))
  {
    HalvesOfWord(b0, b1, b2, b3);
    HalvesOfWord(Classified(look, b0), Classified(look, b1), Classified(look, b2), Classified(look, b3));
    hide Word, Half, FromHalves, Pair, Classified;
    assert Look(table, b0, b1) == Pair(Classified(look, b0), Classified(look, b1));
    assert Look(table, b2, b3) == Pair(Classified(look, b2), Classified(look, b3));
  }

  lemma BytesClassified(m: array<bv8>, at: nat, table: seq<bv16>, look: ClassTable)
    requires at + 4 <= m.Length && |table| == 0x1_0000 && TwoAtOnce(table, look)
    ensures forall i :: at <= i < at + 4 ==> ByteOf(ClassifyWord(Load(m, at), table), i - at) == Classified(look, m[i])
  {
    hide Load, ByteOf, Classified, ClassifyWord, TwoAtOnce;
    forall i | at <= i < at + 4
      ensures ByteOf(ClassifyWord(Load(m, at), table), i - at) == Classified(look, m[i])
    {
      ByteClassified(m, at, i - at, table, look);
    }
  }

  lemma ByteClassified(m: array<bv8>, at: nat, k: nat, table: seq<bv16>, look: ClassTable)
    requires at + 4 <= m.Length && k < 4 && |table| == 0x1_0000 && TwoAtOnce(table, look)
    ensures ByteOf(ClassifyWord(Load(m, at), table), k) == Classified(look, m[at + k])
  {
    hide Word, ByteOf, Classified, ClassifyWord, TwoAtOnce;
    ClassesOfWord(m[at], m[at + 1], m[at + 2], m[at + 3], table, look);
    BytesOfWord(Classified(look, m[at]), Classified(look, m[at + 1]), Classified(look, m[at + 2]),
                Classified(look, m[at + 3]));
    if k == 0 {
    } else if k == 1 {
    } else if k == 2 {
    }
  }

  /** The word that byte i is in is zero. */
  ghost predicate InZeroWord(trace: seq<bv8>, i: nat) {
    forall j :: 0 <= j < |trace| && j / 4 == i / 4 ==> trace[j] == 0
  }

  /** The classes of the bytes, except that words that are zero are skipped. */
  ghost function WordClasses(look: ClassTable, trace: seq<bv8>): (c: seq<bv8>)
    ensures |c| == |trace|
  {
    seq(|trace|, i requires 0 <= i < |trace| => if InZeroWord(trace, i) then 0 else Classified(look, trace[i]))
  }

  lemma ClassesAt(look: ClassTable, trace: seq<bv8>, at: nat)
    requires at % 4 == 0 && at + 4 <= |trace|
    ensures var c := WordClasses(look, trace);
            if forall i :: at <= i < at + 4 ==> trace[i] == 0 then forall i :: at <= i < at + 4 ==> c[i] == 0
            else forall i :: at <= i < at + 4 ==> c[i] == Classified(look, trace[i])
  {
    hide Classified;
    forall i | at <= i < at + 4
      ensures InZeroWord(trace, i) <==> forall j :: at <= j < at + 4 ==> trace[j] == 0
    {
      SameWord(at, i);
      forall j | at <= j < at + 4
        ensures j / 4 == i / 4
      {
        SameWord(at, j);
      }
      forall j | 0 <= j < |trace| && j / 4 == i / 4
        ensures at <= j < at + 4
      {
        InWord(at, i, j);
      }
    }
  }

  lemma SameWord(at: nat, i: nat)
    requires at % 4 == 0 && at <= i < at + 4
    ensures i / 4 == at / 4
  {
  }

  lemma InWord(at: nat, i: nat, j: nat)
    requires at % 4 == 0 && at <= i < at + 4 && j / 4 == i / 4
    ensures at <= j < at + 4
  {
  }

  /** Skipping makes no difference exactly when the table keeps zero. */
  lemma SkippingIsExactIff(look: ClassTable)
    ensures (forall trace: seq<bv8> :: |trace| % 4 == 0 ==> WordClasses(look, trace) == ClassifiedMap(look, trace))
            <==> look[0] == 0
  {
    ClassOfZero(look);
    if look[0] == 0 {
      forall trace: seq<bv8>
        ensures WordClasses(look, trace) == ClassifiedMap(look, trace)
      {
      }
    } else {
      var zeroes: seq<bv8> := seq(4, _ => 0);
      assert InZeroWord(zeroes, 0);
      assert WordClasses(look, zeroes)[0] != ClassifiedMap(look, zeroes)[0];
    }
  }

  /** And the verdicts on unclassified traces are those on classified ones exactly then. */
  lemma VerdictsAgreeIff(look: ClassTable)
    ensures (forall history: seq<seq<bv8>>, trace: seq<bv8> :: |trace| % 4 == 0 && Sized(history, |trace|) ==>
               Novelty(history, WordClasses(look, trace)) == Novelty(history, ClassifiedMap(look, trace)))
            <==> look[0] == 0
  {
    hide WordClasses, ClassifiedMap, Novelty;
    SkippingIsExactIff(look);
    if look[0] == 0 {
      forall trace: seq<bv8> | |trace| % 4 == 0
        ensures WordClasses(look, trace) == ClassifiedMap(look, trace)
      {
      }
    } else {
      var zeroes: seq<bv8> := seq(4, _ => 0);
      assert |zeroes| % 4 == 0 && Sized([], |zeroes|);
      ZeroTrace(look, zeroes);
    }
  }

  lemma ZeroTrace(look: ClassTable, zeroes: seq<bv8>)
    requires |zeroes| == 4 && look[0] != 0 && forall i :: 0 <= i < 4 ==> zeroes[i] == 0
    ensures Novelty([], WordClasses(look, zeroes)) == 0 && Novelty([], ClassifiedMap(look, zeroes)) == 2
  {
    ClassOfZero(look);
    var c := ClassifiedMap(look, zeroes);
    assert c[0] != 0 && FirstHit([], 0);
    forall i, b: bv8 | 0 <= i < 4
      ensures !Share(WordClasses(look, zeroes)[i], b)
    {
      assert InZeroWord(zeroes, i);
      ZeroLacks(b);
    }
  }

  method ClassifyCounts(trace: array<bv8>, table: seq<bv16>, ghost look: ClassTable)
    requires |table| == 0x1_0000 && TwoAtOnce(table, look) && trace.Length % 4 == 0
    modifies trace
    ensures trace[..] == WordClasses(look, old(trace[..]))
  {
    hide Word, Classified, ByteOf, ClassifyWord, TwoAtOnce, WordClasses;
    ghost var t := trace[..];
    ghost var c := WordClasses(look, t);
    var at := 0;
    while at < trace.Length
      invariant 0 <= at <= trace.Length && at % 4 == 0
      invariant forall i :: 0 <= i < trace.Length ==> trace[i] == if i < at then c[i] else t[i]
    {
      WordIsZero(trace, at);
      ClassesAt(look, t, at);
      if Load(trace, at) != 0 {
        BytesClassified(trace, at, table, look);
        Store(trace, at, ClassifyWord(Load(trace, at), table));
      }
      at := at + 4;
    }
  }

  // ---- skim ----

  lemma ClassesMeet(trace: array<bv8>, virgin: array<bv8>, at: nat, table: seq<bv16>, look: ClassTable)
    requires at % 4 == 0 && at + 4 <= trace.Length == virgin.Length
    requires |table| == 0x1_0000 && TwoAtOnce(table, look)
    ensures Load(trace, at) != 0 && Common(ClassifyWord(Load(trace, at), table), Load(virgin, at))
            <==> Fresh(virgin[..], WordClasses(look, trace[..]), at, at + 4)
  {
    hide Word, Share, Common, Classified, ClassifyWord, TwoAtOnce, WordClasses, Fresh;
    ghost var v, t := virgin[..], trace[..];
    ghost var c := WordClasses(look, t);
    WordIsZero(trace, at);
    ClassesAt(look, t, at);
    if Load(trace, at) == 0 {
      NothingSet(v, c, at, at + 4);
    } else {
      ClassesOfWord(trace[at], trace[at + 1], trace[at + 2], trace[at + 3], table, look);
      SharedBits(c[at], c[at + 1], c[at + 2], c[at + 3],
                 v[at], v[at + 1], v[at + 2], v[at + 3]);
      FreshInWord(v, c, at);
    }
  }

  /** The classes of a lane share a bit with the virgin map. */
  predicate ClassesNew(trace: array<bv8>, virgin: array<bv8>, at: nat, x: nat, table: seq<bv16>)
    requires at + 4 * x + 4 <= trace.Length == virgin.Length && |table| == 0x1_0000
    reads trace, virgin
  {
    Common(ClassifyWord(LoadLane(trace, at, x), table), LoadLane(virgin, at, x))
  }

  predicate ZeroLane(m: array<bv8>, at: nat, x: nat)
    requires at + 4 * x + 4 <= m.Length
    reads m
  {
    LoadLane(m, at, x) == 0
  }

  lemma Aligned(at: nat, x: nat)
    requires at % 4 == 0
    ensures (at + 4 * x) % 4 == 0
  {
  }

  /** The test of one more word. */
  lemma WordFresh(trace: array<bv8>, virgin: array<bv8>, at: nat, table: seq<bv16>, look: ClassTable)
    requires at % 4 == 0 && at + 4 <= trace.Length == virgin.Length && |table| == 0x1_0000
             && TwoAtOnce(table, look)
    requires !Fresh(virgin[..], WordClasses(look, trace[..]), 0, at)
    ensures Load(trace, at) != 0 && Common(ClassifyWord(Load(trace, at), table), Load(virgin, at))
            <==> Fresh(virgin[..], WordClasses(look, trace[..]), 0, at + 4)
    ensures Fresh(virgin[..], WordClasses(look, trace[..]), 0, at + 4) ==>
              Fresh(virgin[..], WordClasses(look, trace[..]), 0, trace.Length)
  {
    hide Word, Common, ClassifyWord, TwoAtOnce, WordClasses, Fresh, Load;
    ghost var v, c := virgin[..], WordClasses(look, trace[..]);
    ClassesMeet(trace, virgin, at, table, look);
    FreshSplits(v, c, at, at + 4);
    if Fresh(v, c, 0, at + 4) {
      FreshSpreads(v, c, at + 4);
    }
  }

  lemma LaneMeets(trace: array<bv8>, virgin: array<bv8>, at: nat, x: nat, table: seq<bv16>, look: ClassTable)
    requires at % 4 == 0 && at + 4 * (x + 1) <= trace.Length == virgin.Length && |table| == 0x1_0000
             && TwoAtOnce(table, look)
    requires !Fresh(virgin[..], WordClasses(look, trace[..]), 0, at + 4 * x)
    ensures !ZeroLane(trace, at, x) && ClassesNew(trace, virgin, at, x, table)
            <==> Fresh(virgin[..], WordClasses(look, trace[..]), 0, at + 4 * (x + 1))
    ensures Fresh(virgin[..], WordClasses(look, trace[..]), 0, at + 4 * (x + 1)) ==>
              Fresh(virgin[..], WordClasses(look, trace[..]), 0, trace.Length)
  {
    hide Word, Common, ClassifyWord, TwoAtOnce, WordClasses, Fresh, Load;
    Aligned(at, x);
    WordFresh(trace, virgin, at + 4 * x, table, look);
  }

  function LoadLane(m: array<bv8>, at: nat, x: nat): bv32
    requires at + 4 * x + 4 <= m.Length
    reads m
  {
    Load(m, at + 4 * x)
  }

  lemma Pack16(at: nat, len: nat)
    requires at % 16 == 0 && len % 16 == 0 && at < len
    ensures at % 4 == 0 && at + 16 <= len && (at + 16) % 16 == 0
  {
    var n, m := at / 16, len / 16;
    assert at == 16 * n && len == 16 * m && n + 1 <= m;
    assert at + 16 == 16 * (n + 1) && at == 4 * (4 * n);
  }

  method SkimPack(virgin: array<bv8>, trace: array<bv8>, table: seq<bv16>, ghost look: ClassTable, at: nat)
    returns (found: bool)
    requires at % 4 == 0 && at + 16 <= trace.Length == virgin.Length
    requires |table| == 0x1_0000 && TwoAtOnce(table, look)
    requires !Fresh(virgin[..], WordClasses(look, trace[..]), 0, at)
    ensures found <==> Fresh(virgin[..], WordClasses(look, trace[..]), 0, at + 16)
    ensures found ==> Fresh(virgin[..], WordClasses(look, trace[..]), 0, trace.Length)
  {
    hide Word, Common, ClassifyWord, TwoAtOnce, WordClasses, Fresh, LoadLane, ZeroLane, ClassesNew;
    for x := 0 to 4
      invariant !Fresh(virgin[..], WordClasses(look, trace[..]), 0, at + 4 * x)
    {
      LaneMeets(trace, virgin, at, x, table, look);
      if !ZeroLane(trace, at, x) && ClassesNew(trace, virgin, at, x, table) {
        FreshGrows(virgin[..], WordClasses(look, trace[..]), at + 4 * (x + 1), at + 16);
        return true;
      }
    }
    found := false;
  }

  method Skim(virgin: array<bv8>, trace: array<bv8>, table: seq<bv16>, ghost look: ClassTable) returns (r: int)
    requires trace.Length == virgin.Length && trace.Length % 16 == 0
    requires |table| == 0x1_0000 && TwoAtOnce(table, look)
    ensures r == if Fresh(virgin[..], WordClasses(look, trace[..]), 0, trace.Length) then 1 else 0
  {
    hide Word, Common, ClassifyWord, TwoAtOnce, WordClasses, Fresh, LoadLane, ZeroLane, ClassesNew;
    ghost var v, c := virgin[..], WordClasses(look, trace[..]);
    FreshNowhere(v, c);
    var at := 0;
    while at < trace.Length
      invariant 0 <= at <= trace.Length && at % 16 == 0
      invariant !Fresh(v, c, 0, at)
    {
      Pack16(at, trace.Length);
      var found := SkimPack(virgin, trace, table, look, at);
      if found {
        return 1;
      }
      at := at + 16;
    }
    r := 0;
  }

  method HasNewBitsUnclassified(trace: array<bv8>, virgin: array<bv8>, table: seq<bv16>, ghost look: ClassTable,
                                ghost history: seq<seq<bv8>>)
    returns (ret: int)
    requires trace != virgin && trace.Length == virgin.Length && trace.Length % 16 == 0
    requires |table| == 0x1_0000 && TwoAtOnce(table, look)
    requires Complements(virgin[..], history)
    modifies trace, virgin
    ensures ret == Novelty(history, WordClasses(look, old(trace[..])))
    ensures Complements(virgin[..], history + [WordClasses(look, old(trace[..]))])
    ensures ret == 0 ==> trace[..] == old(trace[..]) && virgin[..] == old(virgin[..])
    ensures ret != 0 ==> trace[..] == WordClasses(look, old(trace[..]))
  {
    hide TwoAtOnce, Fresh, WordClasses, Complements, Novelty, Verdict;
    ghost var v, c := virgin[..], WordClasses(look, trace[..]);
    var seen := Skim(virgin, trace, table, look);
    NothingFresh(v, history, c);
    if seen == 0 {
      return 0;
    }
    ClassifyCounts(trace, table, look);
    ret := HasNewBits(trace, virgin, history);
  }

  // ---- simplify_trace ----

  method SimplifyTrace(trace: array<bv8>)
    requires trace.Length % 4 == 0
    modifies trace
    ensures forall i :: 0 <= i < trace.Length ==> trace[i] == if old(trace[i]) == 0 then 1 else 128
  {
    hide Word, ByteOf;
    var at := 0;
    while at < trace.Length
      invariant 0 <= at <= trace.Length && at % 4 == 0
      invariant forall i :: 0 <= i < trace.Length ==>
                  trace[i] == if i < at then Simplified(old(trace[i])) else old(trace[i])
    {
      WordIsZero(trace, at);
      if Load(trace, at) != 0 {
        for x := 0 to 4
          invariant forall i :: 0 <= i < trace.Length ==>
                      trace[i] == if i < at + x then Simplified(old(trace[i])) else old(trace[i])
        {
          trace[at + x] := Simplified(trace[at + x]);
        }
      } else {
        BytesOfOnes();
        Store(trace, at, 0x0101_0101);
      }
      at := at + 4;
    }
  }

  lemma BytesOfOnes()
    ensures forall k: nat :: k < 4 ==> ByteOf(0x0101_0101, k) == 1
  {
  }
}
