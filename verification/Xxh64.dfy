/**
 * XXH64: the one-call hash, and the streaming state whose digest is that hash of everything
 * fed since the last reset, whatever the cuts.
 */
module Xxh64 {
  import opened Words

  const P1: u64 := 0x9E3779B185EBCA87
  const P2: u64 := 0xC2B2AE3D27D4EB4F
  const P3: u64 := 0x165667B19E3779F9
  const P4: u64 := 0x85EBCA77C2B2AE63
  const P5: u64 := 0x27D4EB2F165667C5
  const STRIPE: nat := 32

  datatype Lanes = Lanes(v1: u64, v2: u64, v3: u64, v4: u64)

  function Mul(x: u64, y: u64): u64 { (x * y) % TWO_TO_THE_64 }

  function Round(acc: u64, input: u64): u64 { Mul(Rotl64(Add(acc, Mul(input, P2)), 31), P1) }

  function MergeRound(acc: u64, val: u64): u64 { Add(Mul(Xor64(acc, Round(0, val)), P1), P4) }

  function Avalanche(h: u64): u64 {
    var a := Mul(Xor64(h, h / 0x2_0000_0000), P2);
    var b := Mul(Xor64(a, a / 0x2000_0000), P3);
    Xor64(b, b / 0x1_0000_0000)
  }

  function InitLanes(seed: u64): Lanes { Lanes(Add(seed, Add(P1, P2)), Add(seed, P2), seed, Sub(seed, P1)) }

  /** One stripe of 32 bytes, at offset `at`. */
  function Rounds(v: Lanes, b: seq<u8>, at: nat): Lanes
    requires at + STRIPE <= |b|
  {
    Lanes(Round(v.v1, ReadLE64(b, at)), Round(v.v2, ReadLE64(b, at + 8)),
          Round(v.v3, ReadLE64(b, at + 16)), Round(v.v4, ReadLE64(b, at + 24)))
  }

  /** The lanes after the first `n` stripes of `data`. */
  function LanesAfter(seed: u64, data: seq<u8>, n: nat): Lanes
    requires n * STRIPE <= |data|
  {
    if n == 0 then InitLanes(seed) else Rounds(LanesAfter(seed, data, n - 1), data, (n - 1) * STRIPE)
  }

  function Converge(v: Lanes): u64 {
    var h := Add(Add(Add(Rotl64(v.v1, 1), Rotl64(v.v2, 7)), Rotl64(v.v3, 12)), Rotl64(v.v4, 18));
    MergeRound(MergeRound(MergeRound(MergeRound(h, v.v1), v.v2), v.v3), v.v4)
  }

  function Process1(h: u64, b: u8): u64 { Mul(Rotl64(Xor64(h, Mul(b, P5)), 11), P1) }

  function Process4(h: u64, w: u32): u64 { Add(Mul(Rotl64(Xor64(h, Mul(w, P1)), 23), P2), P3) }

  function Process8(h: u64, w: u64): u64 { Add(Mul(Rotl64(Xor64(h, Round(0, w)), 27), P1), P4) }

  /** The bytes after the last stripe: by eights, then by four, then one by one. */
  function Tail(h: u64, b: seq<u8>): u64
    decreases |b|
  {
    if |b| >= 8 then Tail(Process8(h, ReadLE64(b, 0)), b[8..])
    else if |b| >= 4 then Tail(Process4(h, ReadLE32(b, 0)), b[4..])
    else if |b| > 0 then Tail(Process1(h, b[0]), b[1..])
    else Avalanche(h)
  }

  /** The XXH64 hash of `data`. */
  function Hash(seed: u64, data: seq<u8>): u64 {
    var n := |data| / STRIPE;
    Tail(Add(Mixed(seed, data, n), |data| % TWO_TO_THE_64), data[n * STRIPE..])
  }

  function Mixed(seed: u64, data: seq<u8>, n: nat): u64
    requires n * STRIPE <= |data|
  {
    if n > 0 then Converge(LanesAfter(seed, data, n)) else Add(seed, P5)
  }

  lemma {:induction false} LanesAgree(seed: u64, data: seq<u8>, other: seq<u8>, n: nat)
    requires n * STRIPE <= |data| && n * STRIPE <= |other|
    requires data[..n * STRIPE] == other[..n * STRIPE]
    ensures LanesAfter(seed, data, n) == LanesAfter(seed, other, n)
  {
    hide Rounds, InitLanes;
    if n > 0 {
      var m := (n - 1) * STRIPE;
      assert data[..m] == data[..n * STRIPE][..m] && other[..m] == other[..n * STRIPE][..m];
      LanesAgree(seed, data, other, n - 1);
      RoundsAgree(LanesAfter(seed, data, n - 1), data, m, other, m);
    }
  }

  lemma RoundsAgree(v: Lanes, b: seq<u8>, at: nat, c: seq<u8>, from: nat)
    requires at + STRIPE <= |b| && from + STRIPE <= |c| && b[at..at + STRIPE] == c[from..from + STRIPE]
    ensures Rounds(v, b, at) == Rounds(v, c, from)
  {
    hide Round, ReadLE64;
    ReadAgree(b, at, c, from, STRIPE, 0);
    ReadAgree(b, at, c, from, STRIPE, 8);
    ReadAgree(b, at, c, from, STRIPE, 16);
    ReadAgree(b, at, c, from, STRIPE, 24);
  }

  /** XXH64_finalize where XXH_REROLL is set. Only the low five bits of `len` count. */
  method FinalizeRerolled(h: u64, b: seq<u8>, len: u64) returns (r: u64)
    requires |b| == len % 32
    ensures r == Tail(h, b)
  {
    hide Process8, Process4, Process1, Avalanche;
    r := h;
    var p: nat, left: nat := 0, len % 32;
    while left >= 8
      invariant p + left == |b| && Tail(h, b) == Tail(r, b[p..])
    {
      r := Process8(r, ReadLE64(b[p..], 0));
      assert b[p..][8..] == b[p + 8..];
      p, left := p + 8, left - 8;
    }
    if left >= 4 {
      r := Process4(r, ReadLE32(b[p..], 0));
      assert b[p..][4..] == b[p + 4..];
      p, left := p + 4, left - 4;
    }
    while left > 0
      invariant left < 4 && p + left == |b| && Tail(h, b) == Tail(r, b[p..])
    {
      r := Process1(r, b[p]);
      assert b[p..][1..] == b[p + 1..];
      p, left := p + 1, left - 1;
    }
    r := Avalanche(r);
  }

  /** A hash on its way, and the bytes of the tail still to be mixed in. */
  datatype Rest = Rest(h: u64, left: seq<u8>)

  function Ends(s: Rest): u64 { Tail(s.h, s.left) }

  function Take8(s: Rest): (t: Rest)
    requires |s.left| >= 8
    ensures |t.left| == |s.left| - 8 && Ends(t) == Ends(s)
  {
    Rest(Process8(s.h, ReadLE64(s.left, 0)), s.left[8..])
  }

  function Take4(s: Rest): (t: Rest)
    requires 4 <= |s.left| < 8
    ensures |t.left| == |s.left| - 4 && Ends(t) == Ends(s)
  {
    Rest(Process4(s.h, ReadLE32(s.left, 0)), s.left[4..])
  }

  function Take1(s: Rest): (t: Rest)
    requires 0 < |s.left| < 4
    ensures |t.left| == |s.left| - 1 && Ends(t) == Ends(s)
  {
    Rest(Process1(s.h, s.left[0]), s.left[1..])
  }

  function Finish(s: Rest): (r: u64)
    requires s.left == []
    ensures r == Ends(s)
  {
    Avalanche(s.h)
  }

  /** XXH64_finalize, the switch: in each group of labels control falls through from the one it enters at. */
  method Finalize(h: u64, b: seq<u8>, len: u64) returns (r: u64)
    requires |b| == len % 32
    ensures r == Tail(h, b)
  {
    hide Take8, Take4, Take1, Finish, Tail;
    var n := len % 32;
    var s := Rest(h, b);
    if n == 24 || n == 16 || n == 8 {
      if n >= 24 { s := Take8(s); }
      if n >= 16 { s := Take8(s); }
      s := Take8(s);
      return Finish(s);
    }
    if n == 28 || n == 20 || n == 12 || n == 4 {
      if n >= 28 { s := Take8(s); }
      if n >= 20 { s := Take8(s); }
      if n >= 12 { s := Take8(s); }
      s := Take4(s);
      return Finish(s);
    }
    if n == 25 || n == 17 || n == 9 {
      if n >= 25 { s := Take8(s); }
      if n >= 17 { s := Take8(s); }
      s := Take8(s);
      s := Take1(s);
      return Finish(s);
    }
    if n == 29 || n == 21 || n == 13 || n == 5 {
      if n >= 29 { s := Take8(s); }
      if n >= 21 { s := Take8(s); }
      if n >= 13 { s := Take8(s); }
      s := Take4(s);
      s := Take1(s);
      return Finish(s);
    }
    if n == 26 || n == 18 || n == 10 {
      if n >= 26 { s := Take8(s); }
      if n >= 18 { s := Take8(s); }
      s := Take8(s);
      s := Take1(s);
      s := Take1(s);
      return Finish(s);
    }
    if n == 30 || n == 22 || n == 14 || n == 6 {
      if n >= 30 { s := Take8(s); }
      if n >= 22 { s := Take8(s); }
      if n >= 14 { s := Take8(s); }
      s := Take4(s);
      s := Take1(s);
      s := Take1(s);
      return Finish(s);
    }
    if n == 27 || n == 19 || n == 11 {
      if n >= 27 { s := Take8(s); }
      if n >= 19 { s := Take8(s); }
      s := Take8(s);
      s := Take1(s);
      s := Take1(s);
      s := Take1(s);
      return Finish(s);
    }
    if n >= 31 { s := Take8(s); }
    if n >= 23 { s := Take8(s); }
    if n >= 15 { s := Take8(s); }
    if n >= 7 { s := Take4(s); }
    if n >= 3 { s := Take1(s); }
    if n >= 2 { s := Take1(s); }
    if n >= 1 { s := Take1(s); }
    r := Finish(s);
  }

  /** XXH64_endian_align. `input` has a size_t length. */
  method OneShot(input: seq<u8>, seed: u64) returns (h: u64)
    requires |input| < TWO_TO_THE_64
    ensures h == Hash(seed, input)
  {
    hide Converge, LanesAfter, Tail;
    var p := 0;
    if |input| >= 32 {
      var v;
      v, p := WholeStripes(input, seed);
      h := Converge(v);
    } else {
      h := Add(seed, P5);
    }
    h := Add(h, |input|);
    h := Finalize(h, input[p..], |input|);
  }

  method WholeStripes(input: seq<u8>, seed: u64) returns (v: Lanes, p: nat)
    requires |input| >= 32
    ensures p == |input| / STRIPE * STRIPE && v == LanesAfter(seed, input, |input| / STRIPE)
  {
    hide Rounds, InitLanes;
    var limit := |input| - 32;
    v := InitLanes(seed);
    ghost var n := 1;
    v, p := Rounds(v, input, 0), 32;
    while p <= limit
      invariant p == n * STRIPE <= |input| && v == LanesAfter(seed, input, n)
    {
      v, p, n := Rounds(v, input, p), p + 32, n + 1;
    }
    assert n == |input| / STRIPE;
  }

  datatype Status = Ok | Error

  class State {
    var v: Lanes
    const mem: array<u8>
    var memsize: u32
    var totalLen: u64

    ghost var seed: u64
    ghost var fed: seq<u8>
    /** How many stripes the lanes have taken in. */
    ghost var taken: nat

    /** The lanes hold the whole stripes of `fed`, and the buffer what is left of it. */
    ghost predicate Ready()
      reads this, mem
    {
      totalLen == |fed| % TWO_TO_THE_64 && Held()
    }

    /** The lanes have taken all whole stripes, and the rest is in memory. */
    ghost predicate Held()
      reads this, mem
    {
      && mem.Length == STRIPE && memsize < STRIPE
      && |fed| == taken * STRIPE + memsize
      && v == LanesAfter(seed, fed, taken)
      && mem[..memsize] == fed[taken * STRIPE..]
    }

    constructor (seed: u64)
      ensures Ready() && this.seed == seed && fed == [] && fresh(mem)
    {
      hide InitLanes;
      v := InitLanes(seed);
      mem := new u8[STRIPE];
      memsize, totalLen := 0, 0;
      this.seed, fed, taken := seed, [], 0;
    }

    method Reset(seed: u64)
      requires mem.Length == STRIPE
      modifies this
      ensures Ready() && this.seed == seed && fed == []
    {
      hide InitLanes;
      v := InitLanes(seed);
      memsize, totalLen := 0, 0;
      this.seed, fed, taken := seed, [], 0;
    }

    /** `input` is what of `fed` the lanes have not yet taken in, from `p` on. */
    ghost predicate Taking(input: seq<u8>, p: nat)
      reads this
    {
      && p <= |input| && |fed| == taken * STRIPE + |input| - p
      && v == LanesAfter(seed, fed, taken)
      && input[p..] == fed[taken * STRIPE..]
    }

    /** One stripe read from `chunk` at `at`, the next one of `fed`. */
    method TakeStripe(chunk: seq<u8>, at: nat)
      requires (taken + 1) * STRIPE <= |fed| && at + STRIPE <= |chunk|
      requires v == LanesAfter(seed, fed, taken)
      requires chunk[at..at + STRIPE] == fed[taken * STRIPE..][..STRIPE]
      modifies this`v, this`taken
      ensures taken == old(taken) + 1 && v == LanesAfter(seed, fed, taken)
    {
      hide Rounds;
      assert chunk[at..at + STRIPE] == fed[taken * STRIPE..taken * STRIPE + STRIPE];
      RoundsAgree(v, chunk, at, fed, taken * STRIPE);
      v := Rounds(v, chunk, at);
      taken := taken + 1;
    }

    /** XXH64_update. No input pointer is an error and changes nothing. */
    method Update(input: Option<seq<u8>>) returns (e: Status)
      requires Ready()
      requires input.Some? ==> |input.value| <= OBJECT_MAX
      modifies this, mem
      ensures Ready() && seed == old(seed)
      ensures e == Ok <==> input.Some?
      ensures fed == old(fed) + (if input.Some? then input.value else [])
    {
      hide LanesAfter, Add;
      if input.None? { return Error; }
      WrappedSum(|fed|, |input.value|);
      totalLen := (totalLen + |input.value|) % TWO_TO_THE_64;
      Feed(input.value);
      return Ok;
    }

    method Feed(data: seq<u8>)
      requires Held() && |data| <= OBJECT_MAX
      modifies this`v, this`taken, this`memsize, this`fed, mem
      ensures Held() && fed == old(fed) + data
    {
      hide LanesAfter, Add;
      LanesAgree(seed, fed, fed + data, taken);
      ghost var held := mem[..memsize];
      fed := fed + data;
      assert held + data == fed[taken * STRIPE..];
      if (memsize + |data|) % TWO_TO_THE_64 < STRIPE {
        CopyInto(mem, memsize, data);
        memsize := memsize + |data|;
      } else {
        Take(data);
      }
    }

    method Take(data: seq<u8>)
      requires mem.Length == STRIPE && memsize < STRIPE <= memsize + |data|
      requires |fed| == taken * STRIPE + memsize + |data| && v == LanesAfter(seed, fed, taken)
      requires mem[..memsize] + data == fed[taken * STRIPE..]
      modifies this`v, this`taken, this`memsize, mem
      ensures memsize < STRIPE && |fed| == taken * STRIPE + memsize && v == LanesAfter(seed, fed, taken)
      ensures mem[..memsize] == fed[taken * STRIPE..]
    {
      hide LanesAfter;
      var p := 0;
      if memsize != 0 {
        p := FillAndTake(data);
      }
      assert data[p..] == fed[taken * STRIPE..];
      p := TakeDirect(data, p);
      if p < |data| {
        CopyInto(mem, 0, data[p..]);
        memsize := |data| - p;
      }
    }

    method FillAndTake(data: seq<u8>) returns (p: nat)
      requires mem.Length == STRIPE && 0 < memsize < STRIPE <= memsize + |data|
      requires |fed| == taken * STRIPE + memsize + |data| && v == LanesAfter(seed, fed, taken)
      requires mem[..memsize] + data == fed[taken * STRIPE..]
      modifies this`v, this`taken, this`memsize, mem
      ensures memsize == 0 && Taking(data, p)
    {
      hide LanesAfter;
      p := STRIPE - memsize;
      ghost var rest := fed[taken * STRIPE..];
      CopyInto(mem, memsize, data[..p]);
      assert mem[..] == rest[..STRIPE] && mem[..][0..STRIPE] == mem[..];
      TakeStripe(mem[..], 0);
      assert fed[taken * STRIPE..] == rest[STRIPE..];
      memsize := 0;
    }

    method TakeDirect(data: seq<u8>, start: nat) returns (p: nat)
      requires Taking(data, start)
      modifies this`v, this`taken
      ensures Taking(data, p) && |data| < p + STRIPE
    {
      hide LanesAfter;
      p := start;
      if p + 32 <= |data| {
        var limit := |data| - 32;
        p := TakeOne(data, p);
        while p <= limit
          invariant Taking(data, p)
        {
          p := TakeOne(data, p);
        }
      }
    }

    method TakeOne(data: seq<u8>, p: nat) returns (q: nat)
      requires Taking(data, p) && p + STRIPE <= |data|
      modifies this`v, this`taken
      ensures Taking(data, q) && q == p + STRIPE
    {
      hide LanesAfter;
      q := p + STRIPE;
      ghost var rest := fed[taken * STRIPE..];
      assert data[p..q] == rest[..STRIPE];
      TakeStripe(data, p);
      assert fed[taken * STRIPE..] == rest[STRIPE..] == data[q..];
    }

    /** XXH64_digest: the one-call hash, for every length that call can be given. */
    method Digest() returns (h: u64)
      requires Ready()
      ensures |fed| < TWO_TO_THE_64 ==> h == Hash(seed, fed)
    {
      hide Converge, Tail, LanesAfter, Add;
      assert |fed| < TWO_TO_THE_64 ==> totalLen == |fed| && totalLen % 32 == memsize;
      if totalLen >= 32 {
        h := Converge(v);
      } else {
        h := Add(v.v3, P5);
        SeedIsThirdLane(seed, fed);
      }
      h := Add(h, totalLen);
      h := Finalize(h, mem[..totalLen % 32], totalLen);
    }
  }

  lemma SeedIsThirdLane(seed: u64, data: seq<u8>)
    ensures LanesAfter(seed, data, 0).v3 == seed
  {
  }

  /** However the input is cut. */
  method HashInPieces(seed: u64, pieces: seq<seq<u8>>) returns (h: u64)
    requires forall i :: 0 <= i < |pieces| ==> |pieces[i]| <= OBJECT_MAX
    ensures |Concat(pieces)| < TWO_TO_THE_64 ==> h == Hash(seed, Concat(pieces))
  {
    hide Hash;
    var s := new State(seed);
    for i := 0 to |pieces|
      invariant s.Ready() && s.seed == seed && s.fed == Concat(pieces[..i]) && fresh(s) && fresh(s.mem)
    {
      assert pieces[..i + 1][..i] == pieces[..i];
      var _ := s.Update(Some(pieces[i]));
    }
    assert pieces[..|pieces|] == pieces;
    h := s.Digest();
  }
}
