/**
 * The two word sizes with lookup tables of any content: skipping the words that are zero makes
 * them agree exactly when the tables map zero as the skipped words are mapped.
 */
module CoverageWidths {
  import C32 = Coverage32
  import C64 = Coverage64

  /** Two neighbouring 32-bit words as one. */
  function Joined(lo: bv32, hi: bv32): bv64 { (lo as bv64) | (hi as bv64 << 32) }

  function Low(w: bv64): bv32 { (w & 0xffff_ffff) as bv32 }

  function High(w: bv64): bv32 { (w >> 32) as bv32 }

  lemma HalvesBack(lo: bv32, hi: bv32)
    ensures Low(Joined(lo, hi)) == lo && High(Joined(lo, hi)) == hi
  {
  }

  lemma JoinedOnce(lo: bv32, hi: bv32, lo': bv32, hi': bv32)
    ensures Joined(lo, hi) == Joined(lo', hi') <==> lo == lo' && hi == hi'
  {
    HalvesBack(lo, hi);
    HalvesBack(lo', hi');
    hide Joined, Low, High;
  }

  lemma JoinedZero(lo: bv32, hi: bv32)
    ensures Joined(lo, hi) == 0 <==> lo == 0 && hi == 0
  {
  }

  // ---- classify_counts ----

  /** What classify_counts makes of eight bytes in one word. */
  function Counts64(lo: bv32, hi: bv32, table: seq<bv16>): bv64
    requires |table| == 0x1_0000
  {
    var w := Joined(lo, hi);
    if w != 0 then C64.ClassifyWord(w, table) else w
  }

  function Count32(w: bv32, table: seq<bv16>): bv32
    requires |table| == 0x1_0000
  {
    if w != 0 then C32.ClassifyWord(w, table) else w
  }

  /** And in two. */
  function Counts32(lo: bv32, hi: bv32, table: seq<bv16>): bv64
    requires |table| == 0x1_0000
  {
    Joined(Count32(lo, table), Count32(hi, table))
  }

  lemma HalvesOfJoined(lo: bv32, hi: bv32)
    ensures var w := Joined(lo, hi);
            && C64.Half(w, 0) == C32.Half(lo, 0) && C64.Half(w, 1) == C32.Half(lo, 1)
            && C64.Half(w, 2) == C32.Half(hi, 0) && C64.Half(w, 3) == C32.Half(hi, 1)
  {
  }

  lemma JoinedHalves(h0: bv16, h1: bv16, h2: bv16, h3: bv16)
    ensures C64.FromHalves(h0, h1, h2, h3) == Joined(C32.FromHalves(h0, h1), C32.FromHalves(h2, h3))
  {
  }

  lemma HalvesOfZero()
    ensures C32.Half(0, 0) == 0 && C32.Half(0, 1) == 0
  {
  }

  lemma FromHalvesZero(h: bv16)
    ensures C32.FromHalves(h, h) == 0 <==> h == 0
  {
  }

  lemma ClassifyJoined(lo: bv32, hi: bv32, table: seq<bv16>)
    requires |table| == 0x1_0000
    ensures C64.ClassifyWord(Joined(lo, hi), table) == Joined(C32.ClassifyWord(lo, table), C32.ClassifyWord(hi, table))
  {
    HalvesOfJoined(lo, hi);
    JoinedHalves(table[C32.Half(lo, 0) as nat], table[C32.Half(lo, 1) as nat],
                 table[C32.Half(hi, 0) as nat], table[C32.Half(hi, 1) as nat]);
    hide C32.Half, C32.FromHalves, C64.Half, C64.FromHalves, Joined;
  }

  lemma ClassifyZero(table: seq<bv16>)
    requires |table| == 0x1_0000
    ensures C32.ClassifyWord(0, table) == 0 <==> table[0] == 0
  {
    HalvesOfZero();
    FromHalvesZero(table[0]);
    hide C32.Half, C32.FromHalves;
  }

  lemma ClassifiedAlike(lo: bv32, hi: bv32, table: seq<bv16>)
    requires |table| == 0x1_0000
    ensures table[0] == 0 ==> Counts64(lo, hi, table) == Counts32(lo, hi, table)
    ensures Counts64(1, 0, table) == Counts32(1, 0, table) ==> table[0] == 0
  {
    ClassifyZero(table);
    ClassifyJoined(lo, hi, table);
    ClassifyJoined(1, 0, table);
    JoinedZero(lo, hi);
    JoinedZero(1, 0);
    JoinedOnce(C32.ClassifyWord(1, table), C32.ClassifyWord(0, table), C32.ClassifyWord(1, table), 0);
    hide C32.ClassifyWord, C64.ClassifyWord, Joined;
  }

  /** So they classify all pairs of words alike exactly when the table keeps zero. */
  lemma PairsAgreeIff(table: seq<bv16>)
    requires |table| == 0x1_0000
    ensures (forall lo, hi :: Counts64(lo, hi, table) == Counts32(lo, hi, table)) <==> table[0] == 0
  {
    hide Counts64, Counts32;
    forall lo, hi
      ensures table[0] == 0 ==> Counts64(lo, hi, table) == Counts32(lo, hi, table)
    {
      ClassifiedAlike(lo, hi, table);
    }
    ClassifiedAlike(1, 0, table);
  }

  lemma JoinedBack(w: bv64)
    ensures Joined(Low(w), High(w)) == w
  {
  }

  /** The loop over a map of whole 64-bit words, given by its 32-bit words. */
  function ClassifiedBy64(map': seq<bv32>, table: seq<bv16>): (m: seq<bv32>)
    requires |table| == 0x1_0000 && |map'| % 2 == 0
    ensures |m| == |map'|
  {
    seq(|map'|, i requires 0 <= i < |map'| => ClassifiedHalf(map', i, table))
  }

  function ClassifiedHalf(map': seq<bv32>, i: nat, table: seq<bv16>): bv32
    requires |table| == 0x1_0000 && |map'| % 2 == 0 && i < |map'|
  {
    if i % 2 == 0 then Low(Counts64(map'[i], map'[i + 1], table)) else High(Counts64(map'[i - 1], map'[i], table))
  }

  /** The loop over its 32-bit words. */
  function ClassifiedBy32(map': seq<bv32>, table: seq<bv16>): (m: seq<bv32>)
    requires |table| == 0x1_0000
    ensures |m| == |map'|
  {
    seq(|map'|, i requires 0 <= i < |map'| => Count32(map'[i], table))
  }

  lemma ClassifiedHalfAlike(map': seq<bv32>, i: nat, table: seq<bv16>)
    requires |table| == 0x1_0000 && table[0] == 0 && |map'| % 2 == 0 && i < |map'|
    ensures ClassifiedHalf(map', i, table) == Count32(map'[i], table)
  {
    var k := if i % 2 == 0 then i else i - 1;
    PairsAgreeIff(table);
    assert Counts64(map'[k], map'[k + 1], table) == Counts32(map'[k], map'[k + 1], table);
    HalvesBack(Count32(map'[k], table), Count32(map'[k + 1], table));
    hide Count32, Counts64, Joined, Low, High;
  }

  lemma ClassifiedPairDiffers(table: seq<bv16>)
    requires |table| == 0x1_0000 && table[0] != 0
    ensures ClassifiedHalf([1, 0], 0, table) != Count32(1, table)
            || ClassifiedHalf([1, 0], 1, table) != Count32(0, table)
  {
    ClassifiedAlike(1, 0, table);
    JoinedBack(Counts64(1, 0, table));
    hide Count32, Counts64, Joined, Low, High;
  }

  /** The widths classify all maps alike exactly when the table keeps zero. */
  lemma CountsAgreeIff(table: seq<bv16>)
    requires |table| == 0x1_0000
    ensures (forall m: seq<bv32> :: |m| % 2 == 0 ==> ClassifiedBy64(m, table) == ClassifiedBy32(m, table))
            <==> table[0] == 0
  {
    hide Count32, ClassifiedHalf;
    if table[0] == 0 {
      forall m: seq<bv32> | |m| % 2 == 0
        ensures ClassifiedBy64(m, table) == ClassifiedBy32(m, table)
      {
        forall i | 0 <= i < |m|
          ensures ClassifiedBy64(m, table)[i] == ClassifiedBy32(m, table)[i]
        {
          ClassifiedHalfAlike(m, i, table);
        }
      }
    } else {
      ClassifiedPairDiffers(table);
      var m: seq<bv32> := [1, 0];
      assert ClassifiedBy64(m, table)[0] != ClassifiedBy32(m, table)[0]
             || ClassifiedBy64(m, table)[1] != ClassifiedBy32(m, table)[1];
    }
  }

  // ---- simplify_trace ----

  function Simple64(lo: bv32, hi: bv32, lookup: seq<bv8>): bv64
    requires |lookup| == 256
  {
    if Joined(lo, hi) != 0 then Joined(Looked(lo, lookup), Looked(hi, lookup)) else 0x0101_0101_0101_0101
  }

  function Simple32(lo: bv32, hi: bv32, lookup: seq<bv8>): bv64
    requires |lookup| == 256
  {
    Joined(SimpleWord(lo, lookup), SimpleWord(hi, lookup))
  }

  function SimpleWord(w: bv32, lookup: seq<bv8>): bv32
    requires |lookup| == 256
  {
    if w != 0 then Looked(w, lookup) else 0x0101_0101
  }

  /** Four bytes of memory replaced through the table. */
  function Looked(w: bv32, lookup: seq<bv8>): bv32
    requires |lookup| == 256
  {
    C32.Word(lookup[C32.ByteOf(w, 0) as nat], lookup[C32.ByteOf(w, 1) as nat],
             lookup[C32.ByteOf(w, 2) as nat], lookup[C32.ByteOf(w, 3) as nat])
  }

  lemma BytesOfZero()
    ensures C32.ByteOf(0, 0) == C32.ByteOf(0, 1) == C32.ByteOf(0, 2) == C32.ByteOf(0, 3) == 0
  {
  }

  lemma WordOfOnes(b: bv8)
    ensures C32.Word(b, b, b, b) == 0x0101_0101 <==> b == 1
  {
  }

  lemma LookedZero(lookup: seq<bv8>)
    requires |lookup| == 256
    ensures Looked(0, lookup) == 0x0101_0101 <==> lookup[0] == 1
  {
    BytesOfZero();
    WordOfOnes(lookup[0]);
    hide C32.ByteOf, C32.Word;
  }

  lemma Ones()
    ensures Joined(0x0101_0101, 0x0101_0101) == 0x0101_0101_0101_0101
  {
  }

  lemma SimplifiedAlike(lo: bv32, hi: bv32, lookup: seq<bv8>)
    requires |lookup| == 256
    ensures lookup[0] == 1 ==> Simple64(lo, hi, lookup) == Simple32(lo, hi, lookup)
    ensures Simple64(1, 0, lookup) == Simple32(1, 0, lookup) ==> lookup[0] == 1
  {
    LookedZero(lookup);
    Ones();
    JoinedZero(lo, hi);
    JoinedZero(1, 0);
    JoinedOnce(Looked(1, lookup), Looked(0, lookup), Looked(1, lookup), 0x0101_0101);
    hide Looked, Joined;
  }

  /** So they simplify all pairs of words alike exactly when the table maps zero to one. */
  lemma SimplifiedPairsAgreeIff(lookup: seq<bv8>)
    requires |lookup| == 256
    ensures (forall lo, hi :: Simple64(lo, hi, lookup) == Simple32(lo, hi, lookup)) <==> lookup[0] == 1
  {
    hide Simple64, Simple32;
    forall lo, hi
      ensures lookup[0] == 1 ==> Simple64(lo, hi, lookup) == Simple32(lo, hi, lookup)
    {
      SimplifiedAlike(lo, hi, lookup);
    }
    SimplifiedAlike(1, 0, lookup);
  }

  /** The loop over a map of whole 64-bit words, given by its 32-bit words. */
  function SimplifiedBy64(map': seq<bv32>, lookup: seq<bv8>): (m: seq<bv32>)
    requires |lookup| == 256 && |map'| % 2 == 0
    ensures |m| == |map'|
  {
    seq(|map'|, i requires 0 <= i < |map'| => SimplifiedHalf(map', i, lookup))
  }

  function SimplifiedHalf(map': seq<bv32>, i: nat, lookup: seq<bv8>): bv32
    requires |lookup| == 256 && |map'| % 2 == 0 && i < |map'|
  {
    if i % 2 == 0 then Low(Simple64(map'[i], map'[i + 1], lookup)) else High(Simple64(map'[i - 1], map'[i], lookup))
  }

  /** The loop over its 32-bit words. */
  function SimplifiedBy32(map': seq<bv32>, lookup: seq<bv8>): (m: seq<bv32>)
    requires |lookup| == 256
    ensures |m| == |map'|
  {
    seq(|map'|, i requires 0 <= i < |map'| => SimpleWord(map'[i], lookup))
  }

  lemma SimplifiedHalfAlike(map': seq<bv32>, i: nat, lookup: seq<bv8>)
    requires |lookup| == 256 && lookup[0] == 1 && |map'| % 2 == 0 && i < |map'|
    ensures SimplifiedHalf(map', i, lookup) == SimpleWord(map'[i], lookup)
  {
    var k := if i % 2 == 0 then i else i - 1;
    SimplifiedPairsAgreeIff(lookup);
    assert Simple64(map'[k], map'[k + 1], lookup) == Simple32(map'[k], map'[k + 1], lookup);
    HalvesBack(SimpleWord(map'[k], lookup), SimpleWord(map'[k + 1], lookup));
    hide SimpleWord, Simple64, Joined, Low, High;
  }

  lemma SimplifiedPairDiffers(lookup: seq<bv8>)
    requires |lookup| == 256 && lookup[0] != 1
    ensures SimplifiedHalf([1, 0], 0, lookup) != SimpleWord(1, lookup)
            || SimplifiedHalf([1, 0], 1, lookup) != SimpleWord(0, lookup)
  {
    SimplifiedAlike(1, 0, lookup);
    JoinedBack(Simple64(1, 0, lookup));
    hide SimpleWord, Simple64, Joined, Low, High;
  }

  /** The widths simplify all maps alike exactly when the table maps zero to one. */
  lemma SimplifyAgreesIff(lookup: seq<bv8>)
    requires |lookup| == 256
    ensures (forall m: seq<bv32> :: |m| % 2 == 0 ==> SimplifiedBy64(m, lookup) == SimplifiedBy32(m, lookup))
            <==> lookup[0] == 1
  {
    hide SimpleWord, SimplifiedHalf;
    if lookup[0] == 1 {
      forall m: seq<bv32> | |m| % 2 == 0
        ensures SimplifiedBy64(m, lookup) == SimplifiedBy32(m, lookup)
      {
        forall i | 0 <= i < |m|
          ensures SimplifiedBy64(m, lookup)[i] == SimplifiedBy32(m, lookup)[i]
        {
          SimplifiedHalfAlike(m, i, lookup);
        }
      }
    } else {
      SimplifiedPairDiffers(lookup);
      var m: seq<bv32> := [1, 0];
      assert SimplifiedBy64(m, lookup)[0] != SimplifiedBy32(m, lookup)[0]
             || SimplifiedBy64(m, lookup)[1] != SimplifiedBy32(m, lookup)[1];
    }
  }
}
