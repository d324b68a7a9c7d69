/**
 * The class table that the fuzzer has. Its initialiser leaves the counts from 64 to 127 and from
 * 192 on without a class, so that cells with such counts go unnoticed.
 */
module CountClasses {
  import opened Coverage
  import C32 = Coverage32
  import C64 = Coverage64

  /** count_class_lookup8: entries that the initialiser does not name are zero. */
  function CountClass(n: nat): bv8 {
    if n <= 2 then (if n == 0 then 0 else if n == 1 then 1 else 2)
    else if n == 3 then 4
    else if n < 8 then 8
    else if n < 16 then 16
    else if n < 32 then 32
    else if n < 64 then 64
    else if 128 <= n < 192 then 128
    else 0
  }

  function CountClassLookup8(): (t: ClassTable)
    ensures forall n :: 0 <= n < 256 ==> t[n] == CountClass(n)
  {
    seq(256, n requires 0 <= n < 256 => CountClass(n))
  }

  /** The counts that have a class. */
  predicate Registers(n: nat) { 1 <= n < 64 || 128 <= n < 192 }

  lemma ClassZeroIff(n: nat)
    requires n < 256
    ensures CountClass(n) == 0 <==> n == 0 || 64 <= n < 128 || 192 <= n
    ensures CountClass(n) == 0 <==> !Registers(n)
  {
  }

  /** Higher counts have higher classes exactly while they have one. */
  lemma OrderedIff(m: nat, n: nat)
    requires m <= n < 256
    ensures CountClass(m) <= CountClass(n) <==> (Registers(m) ==> Registers(n))
  {
  }

  /** 63 hits are classified, 64 are not. */
  lemma OrderFails()
    ensures CountClass(63) == 64 && CountClass(64) == 0
  {
  }

  /** The classes that are shown to users, from 1 to 8, one for every count but zero. */
  function HumanClass(n: nat): nat {
    if n <= 3 then n
    else if n < 8 then 4
    else if n < 16 then 5
    else if n < 32 then 6
    else if n < 128 then 7
    else 8
  }

  /** Bit k - 1 stands for class k. */
  function BitOfClass(k: nat): bv8
    requires k <= 8
  {
    match k
    case 0 => 0
    case 1 => 1
    case 2 => 2
    case 3 => 4
    case 4 => 8
    case 5 => 16
    case 6 => 32
    case 7 => 64
    case _ => 128
  }

  /** The table holds the bits of those classes exactly outside the two gaps. */
  lemma AsShownIff(n: nat)
    requires n < 256
    ensures CountClass(n) == BitOfClass(HumanClass(n)) <==> !(64 <= n < 128 || 192 <= n)
  {
  }

  /** Of two counts with classes, the classes share a bit only if they are the same. */
  lemma ClassesShare(m: nat, n: nat)
    requires m < 256 && n < 256
    ensures Share(CountClass(m), CountClass(n)) <==> Registers(m) && CountClass(m) == CountClass(n)
  {
  }

  // ---- what the fuzzer notices ----

  function Classes(trace: seq<bv8>): (c: seq<bv8>)
    ensures |c| == |trace|
  {
    ClassifiedMap(CountClassLookup8(), trace)
  }

  /** The table keeps zero, so that skipping words makes no difference with it. */
  lemma SkippingIsExact(trace: seq<bv8>)
    ensures |trace| % 8 == 0 ==> C64.WordClasses(CountClassLookup8(), trace) == Classes(trace)
    ensures |trace| % 4 == 0 ==> C32.WordClasses(CountClassLookup8(), trace) == Classes(trace)
  {
    C64.SkippingIsExactIff(CountClassLookup8());
    C32.SkippingIsExactIff(CountClassLookup8());
  }

  ghost function AllClasses(traces: seq<seq<bv8>>): (c: seq<seq<bv8>>)
    ensures |c| == |traces| && forall k :: 0 <= k < |c| ==> c[k] == Classes(traces[k])
    ensures forall n :: Sized(traces, n) ==> Sized(c, n)
  {
    seq(|traces|, k requires 0 <= k < |traces| => Classes(traces[k]))
  }

  function CountAt(trace: seq<bv8>, i: nat): (n: nat)
    requires i < |trace|
    ensures n < 256 && Classes(trace)[i] == CountClass(n)
  {
    trace[i] as nat
  }

  /** Cell i has a class in this trace and never had one before. */
  ghost predicate FirstNoticed(traces: seq<seq<bv8>>, trace: seq<bv8>, i: nat)
    requires Sized(traces, |trace|) && i < |trace|
  {
    Registers(CountAt(trace, i)) && forall k :: 0 <= k < |traces| ==> !Registers(CountAt(traces[k], i))
  }

  /** Cell i has a class in this trace that it never had before. */
  ghost predicate NewClass(traces: seq<seq<bv8>>, trace: seq<bv8>, i: nat)
    requires Sized(traces, |trace|) && i < |trace|
  {
    && Registers(CountAt(trace, i))
    && forall k :: 0 <= k < |traces| ==> CountClass(CountAt(traces[k], i)) != CountClass(CountAt(trace, i))
  }

  lemma CellVerdict(traces: seq<seq<bv8>>, trace: seq<bv8>, i: nat)
    requires Sized(traces, |trace|) && i < |trace|
    ensures Classes(trace)[i] != 0 && FirstHit(AllClasses(traces), i) <==> FirstNoticed(traces, trace, i)
    ensures (exists b: bv8 :: Share(Classes(trace)[i], b) && NewBits(AllClasses(traces), i, b))
            <==> NewClass(traces, trace, i)
  {
    var h, c, n := AllClasses(traces), Classes(trace)[i], CountAt(trace, i);
    ClassZeroIff(n);
    ClassesShare(n, n);
    forall k | 0 <= k < |traces|
      ensures h[k][i] == CountClass(CountAt(traces[k], i))
      ensures h[k][i] == 0 <==> !Registers(CountAt(traces[k], i))
      ensures Share(h[k][i], c) ==> h[k][i] == c
    {
      ClassZeroIff(CountAt(traces[k], i));
      ClassesShare(CountAt(traces[k], i), n);
    }
    hide CountClass, Registers, Share, Classes, CountAt;
    if NewClass(traces, trace, i) {
      assert Share(c, c) && NewBits(h, i, c);
    }
    if b: bv8 :| Share(c, b) && NewBits(h, i, b) {
      ZeroLacks(b);
      assert c != 0;
    }
  }

  /** The verdict on a trace of counts, after any traces of counts. */
  lemma VerdictOnCounts(traces: seq<seq<bv8>>, trace: seq<bv8>)
    requires Sized(traces, |trace|)
    ensures var v := Novelty(AllClasses(traces), Classes(trace));
            && (v == 2 <==> exists i :: 0 <= i < |trace| && FirstNoticed(traces, trace, i))
            && (v >= 1 <==> exists i :: 0 <= i < |trace| && NewClass(traces, trace, i))
  {
    var h, c := AllClasses(traces), Classes(trace);
    hide CountClass, Registers, Share, Classes, CountAt, AllClasses, FirstNoticed, NewClass, FirstHit, NewBits;
    forall i | 0 <= i < |trace|
      ensures c[i] != 0 && FirstHit(h, i) <==> FirstNoticed(traces, trace, i)
      ensures (exists b: bv8 :: Share(c[i], b) && NewBits(h, i, b)) <==> NewClass(traces, trace, i)
      ensures FirstNoticed(traces, trace, i) ==> NewClass(traces, trace, i)
    {
      CellVerdict(traces, trace, i);
      FirstIsNew(traces, trace, i);
    }
  }

  lemma FirstIsNew(traces: seq<seq<bv8>>, trace: seq<bv8>, i: nat)
    requires Sized(traces, |trace|) && i < |trace|
    ensures FirstNoticed(traces, trace, i) ==> NewClass(traces, trace, i)
  {
    hide CountAt;
    ClassZeroIff(CountAt(trace, i));
    forall k | 0 <= k < |traces|
      ensures CountClass(CountAt(traces[k], i)) == 0 <==> !Registers(CountAt(traces[k], i))
    {
      ClassZeroIff(CountAt(traces[k], i));
    }
    hide CountClass, Registers;
  }

  // ---- what it does not ----

  /** A cell that no trace has hit is noticed exactly if its count has a class. */
  lemma FirstHitNoticedIff(trace: seq<bv8>)
    ensures Novelty([], Classes(trace)) == 2 <==> exists i :: 0 <= i < |trace| && Registers(CountAt(trace, i))
  {
    VerdictOnCounts([], trace);
    assert AllClasses([]) == [];
    hide Classes, Registers, CountAt;
    assert forall i :: 0 <= i < |trace| ==> (FirstNoticed([], trace, i) <==> Registers(CountAt(trace, i)));
  }

  /** A trace with one cell, of 64 hits, is worth nothing even to a fuzzer that has seen nothing. */
  lemma SixtyFourHitsUnnoticed(trace: seq<bv8>, cell: nat)
    requires cell < |trace| && trace[cell] == 64
    requires forall i :: 0 <= i < |trace| && i != cell ==> trace[i] == 0
    ensures Novelty([], Classes(trace)) == 0
  {
    hide Classes, CountClass, Registers;
    VerdictOnCounts([], trace);
    assert AllClasses([]) == [];
    forall i | 0 <= i < |trace|
      ensures !NewClass([], trace, i)
    {
      Counts64(trace[i]);
    }
  }

  lemma Counts64(b: bv8)
    requires b == 0 || b == 64
    ensures !Registers(b as nat)
  {
  }

  // ---- a whole session ----

  /** The word size and, for 64 bits, the form of skim. */
  datatype Build = Words32 | Words64(form: C64.Form)

  /** From a virgin map on, each run in turn is judged by its novelty after all runs before it. */
  method Session(build: Build, size: nat, runs: seq<seq<bv8>>) returns (verdicts: seq<int>)
    requires size % 64 == 0 && Sized(runs, size)
    ensures |verdicts| == |runs|
    ensures forall k :: 0 <= k < |runs| ==> verdicts[k] == Novelty(AllClasses(runs[..k]), Classes(runs[k]))
  {
    hide Classes, CountClass, Novelty, Complements, TwoAtOnce;
    var lookup16 := InitCountClass16(CountClassLookup8());
    var table := lookup16[..];
    var virgin := new bv8[size](_ => 0xff);
    StartsVirgin(virgin[..]);
    verdicts := [];
    for n := 0 to |runs|
      invariant |verdicts| == n && Complements(virgin[..], AllClasses(runs[..n]))
      invariant forall k :: 0 <= k < n ==> verdicts[k] == Novelty(AllClasses(runs[..k]), Classes(runs[k]))
    {
      var verdict := Run(build, virgin, table, runs[n], AllClasses(runs[..n]));
      OneMoreRun(runs[..n], runs[n]);
      assert runs[..n + 1] == runs[..n] + [runs[n]];
      verdicts := verdicts + [verdict];
    }
  }

  lemma StartsVirgin(virgin: seq<bv8>)
    requires forall i :: 0 <= i < |virgin| ==> virgin[i] == 0xff
    ensures Complements(virgin, AllClasses([]))
  {
  }

  lemma OneMoreRun(before: seq<seq<bv8>>, run: seq<bv8>)
    ensures AllClasses(before + [run]) == AllClasses(before) + [Classes(run)]
  {
    hide Classes;
  }

  method Run(build: Build, virgin: array<bv8>, table: seq<bv16>, run: seq<bv8>, ghost h: seq<seq<bv8>>)
    returns (ret: int)
    requires |run| == virgin.Length && virgin.Length % 64 == 0
    requires |table| == 0x1_0000 && TwoAtOnce(table, CountClassLookup8())
    requires Complements(virgin[..], h)
    modifies virgin
    ensures Sized(h, |run|) && ret == Novelty(h, Classes(run))
    ensures Complements(virgin[..], h + [Classes(run)])
  {
    hide Classes, CountClassLookup8, Novelty, TwoAtOnce, C32.WordClasses, C64.WordClasses;
    assert Sized(h, |run|);
    hide Complements, Sized;
    WholePacks(|run|);
    SkippingIsExact(run);
    var trace := Copied(run);
    match build
    case Words32 => ret := C32.HasNewBitsUnclassified(trace, virgin, table, CountClassLookup8(), h);
    case Words64(form) => ret := C64.HasNewBitsUnclassified(form, trace, virgin, table, CountClassLookup8(), h);
  }

  lemma WholePacks(n: nat)
    requires n % 64 == 0
    ensures n % 16 == 0 && n % 8 == 0 && n % 4 == 0
  {
    var q := n / 64;
    Sixteens(4 * q);
    Eights(8 * q);
    Fours(16 * q);
  }

  lemma Sixteens(k: nat)
    ensures 16 * k % 16 == 0
  {
  }

  lemma Eights(k: nat)
    ensures 8 * k % 8 == 0
  {
  }

  lemma Fours(k: nat)
    ensures 4 * k % 4 == 0
  {
  }

  method Copied(run: seq<bv8>) returns (trace: array<bv8>)
    ensures fresh(trace) && trace[..] == run
  {
    trace := new bv8[|run|](i requires 0 <= i < |run| => run[i]);
  }
}
