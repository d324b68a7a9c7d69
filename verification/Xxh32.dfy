/**
 * XXH32: the one-call hash, and the streaming state whose digest is that hash of everything
 * fed since the last reset, whatever the cuts.
 */
module Xxh32 {
  import opened Words

  const P1: u32 := 0x9E3779B1
  const P2: u32 := 0x85EBCA77
  const P3: u32 := 0xC2B2AE3D
  const P4: u32 := 0x27D4EB2F
  const P5: u32 := 0x165667B1
  const STRIPE: nat := 16

  datatype Lanes = Lanes(v1: u32, v2: u32, v3: u32, v4: u32)

  function Mul(x: u32, y: u32): u32 { (x * y) % TWO_TO_THE_32 }

  function Round(acc: u32, input: u32): u32 { Mul(Rotl32(Add32(acc, Mul(input, P2)), 13), P1) }

  function Avalanche(h: u32): u32 {
    var a := Mul(Xor32(h, h / 0x8000), P2);
    var b := Mul(Xor32(a, a / 0x2000), P3);
    Xor32(b, b / 0x1_0000)
  }

  function InitLanes(seed: u32): Lanes { Lanes(Add32(seed, Add32(P1, P2)), Add32(seed, P2), seed, Sub32(seed, P1)) }

  /** One stripe of 16 bytes, at offset `at`. */
  function Rounds(v: Lanes, b: seq<u8>, at: nat): Lanes
    requires at + STRIPE <= |b|
  {
    Lanes(Round(v.v1, ReadLE32(b, at)), Round(v.v2, ReadLE32(b, at + 4)),
          Round(v.v3, ReadLE32(b, at + 8)), Round(v.v4, ReadLE32(b, at + 12)))
  }

  /** The lanes after the first `n` stripes of `data`. */
  function LanesAfter(seed: u32, data: seq<u8>, n: nat): Lanes
    requires n * STRIPE <= |data|
  {
    if n == 0 then InitLanes(seed) else Rounds(LanesAfter(seed, data, n - 1), data, (n - 1) * STRIPE)
  }

  function Converge(v: Lanes): u32 {
    Add32(Add32(Add32(Rotl32(v.v1, 1), Rotl32(v.v2, 7)), Rotl32(v.v3, 12)), Rotl32(v.v4, 18))
  }

  function Process1(h: u32, b: u8): u32 { Mul(Rotl32(Add32(h, Mul(b, P5)), 11), P1) }

  function Process4(h: u32, w: u32): u32 { Mul(Rotl32(Add32(h, Mul(w, P3)), 17), P4) }

  /** The bytes after the last stripe: by fours, then one by one. */
  function Tail(h: u32, b: seq<u8>): u32
    decreases |b|
  {
    if |b| >= 4 then Tail(Process4(h, ReadLE32(b, 0)), b[4..])
    else if |b| > 0 then Tail(Process1(h, b[0]), b[1..])
    else Avalanche(h)
  }

  /** The XXH32 hash of `data`. */
  function Hash(seed: u32, data: seq<u8>): u32 {
    var n := |data| / STRIPE;
    Tail(Add32(Mixed(seed, data, n), |data| % TWO_TO_THE_32), data[n * STRIPE..])
  }

  function Mixed(seed: u32, data: seq<u8>, n: nat): u32
    requires n * STRIPE <= |data|
  {
    if n > 0 then Converge(LanesAfter(seed, data, n)) else Add32(seed, P5)
  }

  lemma {:induction false} LanesAgree(seed: u32, data: seq<u8>, other: seq<u8>, n: nat)
    requires n * STRIPE <= |data| && n * STRIPE <= |other|
    requires data[..n * STRIPE] == other[..n * STRIPE]
    ensures LanesAfter(seed, data, n) == LanesAfter(seed, other, n)
  {
    hide Rounds, InitLanes;
    if n > 0 {
      var m := (n - 1) * STRIPE;
      assert data[..m] == data[..n * STRIPE][..m] && other[..m] == other[..n * STRIPE][..m];
      LanesAgree(seed, data, other, n - 1);
      RoundsAgree(LanesAfter(seed, data, n - 1), data, m, other, m);
    }
  }

  lemma RoundsAgree(v: Lanes, b: seq<u8>, at: nat, c: seq<u8>, from: nat)
    requires at + STRIPE <= |b| && from + STRIPE <= |c| && b[at..at + STRIPE] == c[from..from + STRIPE]
    ensures Rounds(v, b, at) == Rounds(v, c, from)
  {
    hide Round, ReadLE32;
    ReadAgree(b, at, c, from, STRIPE, 0);
    ReadAgree(b, at, c, from, STRIPE, 4);
    ReadAgree(b, at, c, from, STRIPE, 8);
    ReadAgree(b, at, c, from, STRIPE, 12);
  }

  /** XXH32_finalize where XXH_REROLL is set. Only the low four bits of `len` count. */
  method FinalizeRerolled(h: u32, b: seq<u8>, len: nat) returns (r: u32)
    requires |b| == len % 16
    ensures r == Tail(h, b)
  {
    hide Process4, Process1, Avalanche;
    r := h;
    var p: nat, left: nat := 0, len % 16;
    while left >= 4
      invariant p + left == |b| && Tail(h, b) == Tail(r, b[p..])
    {
      r := Process4(r, ReadLE32(b[p..], 0));
      assert b[p..][4..] == b[p + 4..];
      p, left := p + 4, left - 4;
    }
    while left > 0
      invariant left < 4 && p + left == |b| && Tail(h, b) == Tail(r, b[p..])
    {
      r := Process1(r, b[p]);
      assert b[p..][1..] == b[p + 1..];
      p, left := p + 1, left - 1;
    }
    r := Avalanche(r);
  }

  /** A hash on its way, and the bytes of the tail still to be mixed in. */
  datatype Rest = Rest(h: u32, left: seq<u8>)

  function Ends(s: Rest): u32 { Tail(s.h, s.left) }

  function Take4(s: Rest): (t: Rest)
    requires |s.left| >= 4
    ensures |t.left| == |s.left| - 4 && Ends(t) == Ends(s)
  {
    Rest(Process4(s.h, ReadLE32(s.left, 0)), s.left[4..])
  }

  function Take1(s: Rest): (t: Rest)
    requires 0 < |s.left| < 4
    ensures |t.left| == |s.left| - 1 && Ends(t) == Ends(s)
  {
    Rest(Process1(s.h, s.left[0]), s.left[1..])
  }

  function Finish(s: Rest): (r: u32)
    requires s.left == []
    ensures r == Ends(s)
  {
    Avalanche(s.h)
  }

  /** XXH32_finalize, the switch: in each group of labels control falls through from the one it enters at. */
  method Finalize(h: u32, b: seq<u8>, len: nat) returns (r: u32)
    requires |b| == len % 16
    ensures r == Tail(h, b)
  {
    hide Take4, Take1, Finish, Tail;
    var n := len % 16;
    var s := Rest(h, b);
    if n == 12 || n == 8 || n == 4 {
      if n >= 12 { s := Take4(s); }
      if n >= 8 { s := Take4(s); }
      s := Take4(s);
      return Finish(s);
    }
    if n == 13 || n == 9 || n == 5 {
      if n >= 13 { s := Take4(s); }
      if n >= 9 { s := Take4(s); }
      s := Take4(s);
      s := Take1(s);
      return Finish(s);
    }
    if n == 14 || n == 10 || n == 6 {
      if n >= 14 { s := Take4(s); }
      if n >= 10 { s := Take4(s); }
      s := Take4(s);
      s := Take1(s);
      s := Take1(s);
      return Finish(s);
    }
    if n >= 15 { s := Take4(s); }
    if n >= 11 { s := Take4(s); }
    if n >= 7 { s := Take4(s); }
    if n >= 3 { s := Take1(s); }
    if n >= 2 { s := Take1(s); }
    if n >= 1 { s := Take1(s); }
    r := Finish(s);
  }

  /** XXH32_endian_align. `input` has a size_t length, of which the low 32 bits are mixed in. */
  method OneShot(input: seq<u8>, seed: u32) returns (h: u32)
    requires |input| < TWO_TO_THE_64
    ensures h == Hash(seed, input)
  {
    hide Converge, LanesAfter, Tail;
    var p := 0;
    if |input| >= 16 {
      var v;
      v, p := WholeStripes(input, seed);
      h := Converge(v);
    } else {
      h := Add32(seed, P5);
    }
    h := Add32(h, |input| % TWO_TO_THE_32);
    h := Finalize(h, input[p..], |input| % 16);
  }

  method WholeStripes(input: seq<u8>, seed: u32) returns (v: Lanes, p: nat)
    requires |input| >= 16
    ensures p == |input| / STRIPE * STRIPE && v == LanesAfter(seed, input, |input| / STRIPE)
  {
    hide Rounds, InitLanes;
    var limit := |input| - 15;
    v := InitLanes(seed);
    ghost var n := 1;
    v, p := Rounds(v, input, 0), 16;
    while p < limit
      invariant p == n * STRIPE <= |input| && v == LanesAfter(seed, input, n)
    {
      v, p, n := Rounds(v, input, p), p + 16, n + 1;
    }
    assert n == |input| / STRIPE;
  }

  datatype Status = Ok | Error

  class State {
    var v: Lanes
    const mem: array<u8>
    var memsize: u32
    var totalLen32: u32
    var largeLen: bool

    ghost var seed: u32
    ghost var fed: seq<u8>
    /** How many stripes the lanes have taken in. */
    ghost var taken: nat

    /** The lanes hold the whole stripes of `fed`, and the buffer what is left of it. */
    ghost predicate Ready()
      reads this, mem
    {
      totalLen32 == |fed| % TWO_TO_THE_32 && largeLen == (|fed| >= 16) && Held()
    }

    /** The lanes have taken all whole stripes, and the rest is in memory. */
    ghost predicate Held()
      reads this, mem
    {
      && mem.Length == STRIPE && memsize < STRIPE
      && |fed| == taken * STRIPE + memsize
      && v == LanesAfter(seed, fed, taken)
      && mem[..memsize] == fed[taken * STRIPE..]
    }

    constructor (seed: u32)
      ensures Ready() && this.seed == seed && fed == [] && fresh(mem)
    {
      hide InitLanes;
      v := InitLanes(seed);
      mem := new u8[STRIPE];
      memsize, totalLen32, largeLen := 0, 0, false;
      this.seed, fed, taken := seed, [], 0;
    }

    method Reset(seed: u32)
      requires mem.Length == STRIPE
      modifies this
      ensures Ready() && this.seed == seed && fed == []
    {
      hide InitLanes;
      v := InitLanes(seed);
      memsize, totalLen32, largeLen := 0, 0, false;
      this.seed, fed, taken := seed, [], 0;
    }

    /** `input` is what of `fed` the lanes have not yet taken in, from `p` on. */
    ghost predicate Taking(input: seq<u8>, p: nat)
      reads this
    {
      && p <= |input| && |fed| == taken * STRIPE + |input| - p
      && v == LanesAfter(seed, fed, taken)
      && input[p..] == fed[taken * STRIPE..]
    }

    /** One stripe read from `chunk` at `at`, the next one of `fed`. */
    method TakeStripe(chunk: seq<u8>, at: nat)
      requires (taken + 1) * STRIPE <= |fed| && at + STRIPE <= |chunk|
      requires v == LanesAfter(seed, fed, taken)
      requires chunk[at..at + STRIPE] == fed[taken * STRIPE..][..STRIPE]
      modifies this`v, this`taken
      ensures taken == old(taken) + 1 && v == LanesAfter(seed, fed, taken)
    {
      hide Rounds;
      assert chunk[at..at + STRIPE] == fed[taken * STRIPE..taken * STRIPE + STRIPE];
      RoundsAgree(v, chunk, at, fed, taken * STRIPE);
      v := Rounds(v, chunk, at);
      taken := taken + 1;
    }

    /** XXH32_update. No input pointer is an error and changes nothing. */
    method Update(input: Option<seq<u8>>) returns (e: Status)
      requires Ready()
      requires input.Some? ==> |input.value| <= OBJECT_MAX
      modifies this, mem
      ensures Ready() && seed == old(seed)
      ensures e == Ok <==> input.Some?
      ensures fed == old(fed) + (if input.Some? then input.value else [])
    {
      hide LanesAfter;
      if input.None? { return Error; }
      CountOn(|input.value|);
      Feed(input.value);
      return Ok;
    }

    method Feed(data: seq<u8>)
      requires Held() && |data| <= OBJECT_MAX
      modifies this`v, this`taken, this`memsize, this`fed, mem
      ensures Held() && fed == old(fed) + data
    {
      hide LanesAfter;
      LanesAgree(seed, fed, fed + data, taken);
      ghost var held := mem[..memsize];
      fed := fed + data;
      assert held + data == fed[taken * STRIPE..];
      if (memsize + |data|) % TWO_TO_THE_64 < STRIPE {
        CopyInto(mem, memsize, data);
        memsize := memsize + |data|;
      } else {
        Take(data);
      }
    }

    /** total_len_32 wraps; large_len remembers that 16 was once reached. */
    method CountOn(len: nat)
      requires totalLen32 == |fed| % TWO_TO_THE_32 && largeLen == (|fed| >= 16)
      modifies this`totalLen32, this`largeLen
      ensures totalLen32 == (|fed| + len) % TWO_TO_THE_32 && largeLen == (|fed| + len >= 16)
    {
      WrappedSum32(|fed|, len);
      totalLen32 := (totalLen32 + len % TWO_TO_THE_32) % TWO_TO_THE_32;
      largeLen := largeLen || len >= 16 || totalLen32 >= 16;
    }

    method Take(data: seq<u8>)
      requires mem.Length == STRIPE && memsize < STRIPE <= memsize + |data|
      requires |fed| == taken * STRIPE + memsize + |data| && v == LanesAfter(seed, fed, taken)
      requires mem[..memsize] + data == fed[taken * STRIPE..]
      modifies this`v, this`taken, this`memsize, mem
      ensures memsize < STRIPE && |fed| == taken * STRIPE + memsize && v == LanesAfter(seed, fed, taken)
      ensures mem[..memsize] == fed[taken * STRIPE..]
    {
      hide LanesAfter;
      var p := 0;
      if memsize != 0 {
        p := FillAndTake(data);
      }
      assert data[p..] == fed[taken * STRIPE..];
      p := TakeDirect(data, p);
      if p < |data| {
        CopyInto(mem, 0, data[p..]);
        memsize := |data| - p;
      }
    }

    method FillAndTake(data: seq<u8>) returns (p: nat)
      requires mem.Length == STRIPE && 0 < memsize < STRIPE <= memsize + |data|
      requires |fed| == taken * STRIPE + memsize + |data| && v == LanesAfter(seed, fed, taken)
      requires mem[..memsize] + data == fed[taken * STRIPE..]
      modifies this`v, this`taken, this`memsize, mem
      ensures memsize == 0 && Taking(data, p)
    {
      hide LanesAfter;
      p := STRIPE - memsize;
      ghost var rest := fed[taken * STRIPE..];
      CopyInto(mem, memsize, data[..p]);
      assert mem[..] == rest[..STRIPE] && mem[..][0..STRIPE] == mem[..];
      TakeStripe(mem[..], 0);
      assert fed[taken * STRIPE..] == rest[STRIPE..];
      memsize := 0;
    }

    method TakeDirect(data: seq<u8>, start: nat) returns (p: nat)
      requires Taking(data, start)
      modifies this`v, this`taken
      ensures Taking(data, p) && |data| < p + STRIPE
    {
      hide LanesAfter;
      p := start;
      if p <= |data| - 16 {
        var limit := |data| - 16;
        p := TakeOne(data, p);
        while p <= limit
          invariant Taking(data, p)
        {
          p := TakeOne(data, p);
        }
      }
    }

    method TakeOne(data: seq<u8>, p: nat) returns (q: nat)
      requires Taking(data, p) && p + STRIPE <= |data|
      modifies this`v, this`taken
      ensures Taking(data, q) && q == p + STRIPE
    {
      hide LanesAfter;
      q := p + STRIPE;
      ghost var rest := fed[taken * STRIPE..];
      assert data[p..q] == rest[..STRIPE];
      TakeStripe(data, p);
      assert fed[taken * STRIPE..] == rest[STRIPE..] == data[q..];
    }

    /** XXH32_digest: the one-call hash, however much was fed. */
    method Digest() returns (h: u32)
      requires Ready()
      ensures h == Hash(seed, fed)
    {
      hide Converge, Tail, LanesAfter, Add32;
      if largeLen {
        h := Converge(v);
      } else {
        h := Add32(v.v3, P5);
        SeedIsThirdLane(seed, fed);
      }
      assert memsize == |fed| % 16;
      h := Add32(h, totalLen32);
      h := Finalize(h, mem[..memsize], memsize);
    }
  }

  lemma SeedIsThirdLane(seed: u32, data: seq<u8>)
    ensures LanesAfter(seed, data, 0).v3 == seed
  {
  }

  /** However the input is cut. */
  method HashInPieces(seed: u32, pieces: seq<seq<u8>>) returns (h: u32)
    requires forall i :: 0 <= i < |pieces| ==> |pieces[i]| <= OBJECT_MAX
    ensures h == Hash(seed, Concat(pieces))
  {
    hide Hash;
    var s := new State(seed);
    for i := 0 to |pieces|
      invariant s.Ready() && s.seed == seed && s.fed == Concat(pieces[..i]) && fresh(s) && fresh(s.mem)
    {
      assert pieces[..i + 1][..i] == pieces[..i];
      var _ := s.Update(Some(pieces[i]));
    }
    assert pieces[..|pieces|] == pieces;
    h := s.Digest();
  }
}
