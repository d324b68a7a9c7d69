/** Exclusive or on numbers is that of the processor on words, by which words can be computed. */
module ExclusiveOr {
  import opened Words

  function Nat(a: bv64): nat { a as nat }

  function Exor(a: bv64, b: bv64): bv64 { a ^ b }

  function Half(a: bv64): bv64 { a >> 1 }

  function Low(a: bv64): bv1 { (a & 1) as bv1 }

  lemma UpperAndLower(hi: bv63, lo: bv1)
    ensures Nat(((hi as bv64) << 1) | (lo as bv64)) == 2 * (hi as nat) + lo as nat
    ensures Nat(hi as bv64) == hi as nat
  {
  }

  lemma Bits(a: bv64)
    ensures a == ((((a >> 1) as bv63) as bv64) << 1) | (Low(a) as bv64) && Half(a) == ((a >> 1) as bv63) as bv64
  {
  }

  lemma LowIsOdd(a: bv64)
    ensures Nat(a) == 2 * Nat(Half(a)) + if Low(a) == 1 then 1 else 0
  {
    Bits(a);
    UpperAndLower((a >> 1) as bv63, Low(a));
    hide Nat, Half, Low;
  }

  lemma LowExor(a: bv64, b: bv64)
    ensures Low(Exor(a, b)) == 1 <==> Low(a) != Low(b)
  {
  }

  lemma HalfExor(a: bv64, b: bv64)
    ensures Half(Exor(a, b)) == Exor(Half(a), Half(b))
  {
  }

  lemma Zero(a: bv64)
    ensures Nat(a) == 0 ==> a == 0
  {
  }

  lemma ZeroExor()
    ensures Nat(Exor(0, 0)) == 0
  {
  }

  lemma HalfAndLow(x: nat, half: nat, odd: bool)
    requires x == 2 * half + if odd then 1 else 0
    ensures x / 2 == half && x % 2 == if odd then 1 else 0
  {
  }

  lemma SumParity(m: nat, n: nat)
    ensures (m + n) % 2 == if m % 2 == n % 2 then 0 else 1
  {
  }

  lemma Rejoined(x: nat)
    ensures x == 2 * (x / 2) + x % 2
  {
  }

  /** On words it is what the processor computes. */
  lemma {:induction false} XorIsExor(a: bv64, b: bv64)
    ensures Xor(Nat(a), Nat(b)) == Nat(Exor(a, b))
    decreases Nat(a) + Nat(b)
  {
    hide Nat, Low, Exor, Half;
    if Nat(a) + Nat(b) == 0 {
      Zero(a);
      Zero(b);
      ZeroExor();
    } else {
      hide Xor;
      LowIsOdd(a);
      HalfAndLow(Nat(a), Nat(Half(a)), Low(a) == 1);
      LowIsOdd(b);
      HalfAndLow(Nat(b), Nat(Half(b)), Low(b) == 1);
      LowIsOdd(Exor(a, b));
      HalfExor(a, b);
      LowExor(a, b);
      XorIsExor(Half(a), Half(b));
      XorStep(Nat(a), Nat(b));
      SumParity(Nat(a), Nat(b));
      Rejoined(Xor(Nat(a), Nat(b)));
    }
  }

  lemma XorIs(a: bv64, b: bv64, x: nat, y: nat, z: nat)
    requires Nat(a) == x && Nat(b) == y && Nat(Exor(a, b)) == z
    ensures Xor(x, y) == z
  {
    hide Xor;
    XorIsExor(a, b);
  }
}
