/**
 * Unrolling a string or memory comparison with one constant operand into a chain of byte
 * compares, and when that chain means what the library call meant.
 */
module CompareChain {
  import opened Words

  datatype Callee = Strcmp | Strcasecmp | Strncmp | Strncasecmp | Memcmp | Bcmp

  /** The third operand: none, a constant, or a value known only when the call is made. */
  datatype Size = NoSize | ConstSize(n: nat) | RunSize

  /** `raw` is what is known of the constant operand, `constFirst` whether it is the first. */
  datatype Call = Call(callee: Callee, raw: seq<u8>, constFirst: bool, size: Size)

  predicate IsSized(k: Callee) { k.Memcmp? || k.Strncmp? || k.Strncasecmp? }

  predicate IgnoresCase(k: Callee) { k.Strcasecmp? || k.Strncasecmp? }

  /** The calls that are replaced. */
  predicate Selected(c: Call) {
    && (c.size.NoSize? <==> c.callee.Strcmp? || c.callee.Strcasecmp?)
    && (c.size.ConstSize? ==> c.size.n >= 2)
    && (c.callee.Memcmp? || c.callee.Bcmp? ==> c.size.ConstSize?)
    && |c.raw| >= 2 && !(|c.raw| == 2 && c.raw[1] == 0)
  }

  function FirstNul(s: seq<u8>): (i: nat)
    ensures i <= |s| && (i < |s| ==> s[i] == 0) && forall j :: 0 <= j < i ==> s[j] != 0
  {
    if s == [] || s[0] == 0 then 0 else 1 + FirstNul(s[1..])
  }

  /** The bytes compared with: for all callees but memcmp, up to and with the first NUL. */
  function ConstStr(c: Call): (s: seq<u8>)
    requires Selected(c)
    ensures |s| > 0
  {
    if c.callee.Memcmp? then c.raw
    else
      var t := if c.raw[|c.raw| - 1] != 0 then c.raw + [0] else c.raw;
      assert t[|t| - 1] == 0;
      t[..FirstNul(t) + 1]
  }

  function UnrollLen(c: Call): (n: nat)
    requires Selected(c)
    ensures 0 < n <= |ConstStr(c)|
  {
    if IsSized(c.callee) && c.size.ConstSize? && c.size.n < |ConstStr(c)| then c.size.n else |ConstStr(c)|
  }

  /** tolower of the POSIX locale. */
  function Lower(x: u8): u8 { if 65 <= x <= 90 then x + 32 else x }

  function Folded(c: Call, x: u8): u8 { if IgnoresCase(c.callee) then Lower(x) else x }

  /** Sign extension of an 8-bit difference. */
  function Sext8(d: int): int {
    var b := d % 256;
    if b < 128 then b else b - 256
  }

  // ---- the chain as blocks ----

  datatype Dest = End | To(b: nat)

  /** A block may load byte `index` and subtract `ch` or be subtracted from it. */
  datatype Body = Empty | Compare(index: nat, ch: u8)

  datatype Terminator = Br(dest: Dest) | SizeIs(k: nat, yes: Dest, no: Dest) | DiffIsZero(yes: Dest, no: Dest)

  datatype Block = Block(body: Body, term: Terminator)

  /** An entry of the phi in the end block: zero, or the difference of the block it comes from. */
  datatype Incoming = Incoming(from: nat, zero: bool)

  datatype Chain = Chain(blocks: seq<Block>, phi: seq<Incoming>)

  datatype Outcome = Fault | Stuck | Returned(value: int)

  function Difference(c: Call, x: u8, ch: u8): int {
    if c.constFirst then ch - Folded(c, x) else Folded(c, x) - ch
  }

  function PhiEntry(phi: seq<Incoming>, b: nat): Option<Incoming> {
    if phi == [] then None else if phi[0].from == b then Some(phi[0]) else PhiEntry(phi[1..], b)
  }

  /** Runs the chain from block `b`. `mem` is what can be read of the other operand, `n` the size at run time. */
  function Run(c: Call, g: Chain, b: nat, mem: seq<u8>, n: nat, fuel: nat): Outcome
    decreases fuel
  {
    if fuel == 0 || b >= |g.blocks| then Stuck
    else
      var block := g.blocks[b];
      if block.body.Compare? && block.body.index >= |mem| then Fault
      else
        var d := if block.body.Compare? then Difference(c, mem[block.body.index], block.body.ch) else 0;
        var dest := match block.term
          case Br(dest) => dest
          case SizeIs(k, yes, no) => if n == k then yes else no
          case DiffIsZero(yes, no) => if d % 256 == 0 then yes else no;
        match dest
        case To(next) => Run(c, g, next, mem, n, fuel - 1)
        case End =>
          match PhiEntry(g.phi, b)
          case None => Stuck
          case Some(entry) => Returned(if entry.zero then 0 else Sext8(d))
  }

  // ---- what the loop builds ----

  /** Whether the size, unknown until run time, is tested before each byte. */
  predicate ChecksSize(c: Call) { IsSized(c.callee) && c.size.RunSize? }

  /** The first block for byte `i`, which is also how many blocks there are before it. */
  function EntryAt(c: Call, i: nat): nat { if ChecksSize(c) then 2 * i else i }

  function CompareAt(c: Call, i: nat): nat { if ChecksSize(c) then 2 * i + 1 else i }

  function CompareBlock(c: Call, i: nat): Block
    requires Selected(c) && i < UnrollLen(c)
  {
    Block(Compare(i, Folded(c, ConstStr(c)[i])),
          if i < UnrollLen(c) - 1 then DiffIsZero(To(EntryAt(c, i + 1)), End) else Br(End))
  }

  /** The blocks and the phi entries of the first `i` bytes are complete. */
  ghost predicate Built(c: Call, blocks: seq<Block>, phi: seq<Incoming>, i: nat)
    requires Selected(c)
  {
    && i <= UnrollLen(c) && |phi| == EntryAt(c, i) <= |blocks|
    && (forall k :: 0 <= k < |phi| ==> phi[k] == Incoming(k, ChecksSize(c) && k % 2 == 0))
    && (forall k :: 0 <= k < i ==> blocks[CompareAt(c, k)] == CompareBlock(c, k))
    && (ChecksSize(c) ==>
          forall k :: 0 <= k < i ==> blocks[EntryAt(c, k)] == Block(Empty, SizeIs(k, End, To(CompareAt(c, k)))))
  }

  const NEW_BLOCK: Block := Block(Empty, Br(End))

  /** The loop that builds the chain; `nextCmp` and `nextLenchk` name the blocks to fill next. */
  method Unroll(c: Call) returns (g: Chain)
    requires Selected(c)
    ensures Built(c, g.blocks, g.phi, UnrollLen(c))
  {
    hide ConstStr, UnrollLen, Folded, CompareBlock, ChecksSize, Selected, Built;
    var constStr := ConstStr(c);
    var unrollLen := UnrollLen(c);
    var blocks: seq<Block> := [];
    var nextLenchk: Option<nat> := None;
    if ChecksSize(c) {
      nextLenchk := Some(|blocks|);
      blocks := blocks + [NEW_BLOCK];
    }
    var nextCmp := |blocks|;
    blocks := blocks + [NEW_BLOCK];
    var phi: seq<Incoming> := [];
    BuiltNone(c, blocks);
    for i := 0 to unrollLen
      invariant Built(c, blocks, phi, i)
      invariant |blocks| == EntryAt(c, if i < unrollLen then i + 1 else i)
      invariant i < unrollLen ==> nextCmp == CompareAt(c, i) && blocks[nextCmp] == NEW_BLOCK
      invariant i < unrollLen ==> nextLenchk == if ChecksSize(c) then Some(EntryAt(c, i)) else None
      invariant i < unrollLen && ChecksSize(c) ==> blocks[EntryAt(c, i)] == NEW_BLOCK
    {
      var curCmp, curLenchk := nextCmp, nextLenchk;
      ghost var before, entries := blocks, phi;
      if curLenchk.Some? {
        blocks := blocks[curLenchk.value := Block(Empty, SizeIs(i, End, To(curCmp)))];
        phi := phi + [Incoming(curLenchk.value, true)];
      }
      var ch := Folded(c, constStr[i]);
      blocks := blocks[curCmp := Block(Compare(i, ch), Br(End))];
      phi := phi + [Incoming(curCmp, false)];
      if i < unrollLen - 1 {
        if curLenchk.Some? {
          nextLenchk := Some(|blocks|);
          blocks := blocks + [NEW_BLOCK];
        }
        nextCmp := |blocks|;
        blocks := blocks + [NEW_BLOCK];
        var onZero := if nextLenchk.Some? then nextLenchk.value else nextCmp;
        blocks := blocks[curCmp := blocks[curCmp].(term := DiffIsZero(To(onZero), End))];
      }
      CompareBlockIs(c, i);
      BuiltNext(c, before, entries, blocks, phi, i);
    }
    g := Chain(blocks, phi);
  }

  lemma BuiltNone(c: Call, blocks: seq<Block>)
    requires Selected(c)
    ensures Built(c, blocks, [], 0)
  {
  }

  /** One more byte: its blocks are filled, those before are as they were, and the phi has entries for it. */
  lemma BuiltNext(c: Call, before: seq<Block>, entries: seq<Incoming>, blocks: seq<Block>, phi: seq<Incoming>, i: nat)
    requires Selected(c) && i < UnrollLen(c) && Built(c, before, entries, i)
    requires EntryAt(c, i) <= |before| && CompareAt(c, i) < |blocks|
    requires blocks[CompareAt(c, i)] == CompareBlock(c, i)
    requires ChecksSize(c) ==> blocks[EntryAt(c, i)] == Block(Empty, SizeIs(i, End, To(CompareAt(c, i))))
    requires forall k :: 0 <= k < EntryAt(c, i) ==> blocks[k] == before[k]
    requires var last := Incoming(CompareAt(c, i), false);
             phi == if ChecksSize(c) then entries + [Incoming(EntryAt(c, i), true)] + [last] else entries + [last]
    ensures Built(c, blocks, phi, i + 1)
  {
    hide ConstStr, UnrollLen, Folded, CompareBlock, Selected;
  }

  lemma CompareBlockIs(c: Call, i: nat)
    requires Selected(c) && i < UnrollLen(c)
    ensures CompareBlock(c, i) == Block(Compare(i, Folded(c, ConstStr(c)[i])),
          if i < UnrollLen(c) - 1 then DiffIsZero(To(EntryAt(c, i + 1)), End) else Br(End))
  {
    hide ConstStr, UnrollLen, Folded;
  }

  /** What the chain computes from byte `i` on. */
  function Meaning(c: Call, mem: seq<u8>, n: nat, i: nat): Outcome
    requires Selected(c) && i < UnrollLen(c)
    decreases UnrollLen(c) - i
  {
    if ChecksSize(c) && n == i then Returned(0)
    else if i >= |mem| then Fault
    else
      var d := Difference(c, mem[i], Folded(c, ConstStr(c)[i]));
      if d == 0 && i < UnrollLen(c) - 1 then Meaning(c, mem, n, i + 1) else Returned(Sext8(d))
  }

  lemma {:induction false} PhiEntryAt(phi: seq<Incoming>, b: nat, first: nat)
    requires b < |phi| && forall k :: 0 <= k < |phi| ==> phi[k].from == first + k
    ensures PhiEntry(phi, first + b) == Some(phi[b])
  {
    if b > 0 {
      PhiEntryAt(phi[1..], b - 1, first + 1);
    }
  }

  /** Running a compare block: fault, go on, or leave with the difference. */
  lemma RunCompare(c: Call, g: Chain, mem: seq<u8>, n: nat, i: nat, fuel: nat)
    requires Selected(c) && i < UnrollLen(c) && fuel > 0
    requires Built(c, g.blocks, g.phi, UnrollLen(c))
    ensures Run(c, g, CompareAt(c, i), mem, n, fuel) ==
            if i >= |mem| then Fault
            else
              (var d := Difference(c, mem[i], Folded(c, ConstStr(c)[i]));
               if d == 0 && i < UnrollLen(c) - 1 then Run(c, g, EntryAt(c, i + 1), mem, n, fuel - 1)
               else Returned(Sext8(d)))
  {
    hide ConstStr, UnrollLen, Lower;
    var cmp := CompareAt(c, i);
    assert g.blocks[cmp] == CompareBlock(c, i);
    PhiEntryAt(g.phi, cmp, 0);
  }

  lemma RunSizeCheck(c: Call, g: Chain, mem: seq<u8>, n: nat, i: nat, fuel: nat)
    requires Selected(c) && i < UnrollLen(c) && fuel > 0 && ChecksSize(c)
    requires Built(c, g.blocks, g.phi, UnrollLen(c))
    ensures Run(c, g, EntryAt(c, i), mem, n, fuel) ==
            if n == i then Returned(0) else Run(c, g, CompareAt(c, i), mem, n, fuel - 1)
  {
    hide ConstStr, UnrollLen, Difference, Sext8;
    PhiEntryAt(g.phi, EntryAt(c, i), 0);
  }

  lemma {:induction false} RunIsMeaning(c: Call, g: Chain, mem: seq<u8>, n: nat, i: nat, fuel: nat)
    requires Selected(c) && i < UnrollLen(c)
    requires Built(c, g.blocks, g.phi, UnrollLen(c)) && fuel >= 2 * (UnrollLen(c) - i)
    ensures Run(c, g, EntryAt(c, i), mem, n, fuel) == Meaning(c, mem, n, i)
    decreases UnrollLen(c) - i
  {
    hide ConstStr, UnrollLen, Difference, Sext8, Built, Run;
    var left := if ChecksSize(c) then fuel - 1 else fuel;
    if ChecksSize(c) {
      RunSizeCheck(c, g, mem, n, i, fuel);
    }
    RunCompare(c, g, mem, n, i, left);
    if i < UnrollLen(c) - 1 {
      RunIsMeaning(c, g, mem, n, i + 1, left - 1);
    }
  }

  // ---- the library functions ----

  /** The difference of the first bytes that differ, case folded if asked for, before position
      `limit` and, for strings, not after a NUL; 0 if there are none. Sections 7.24.4.1, 7.24.4.2
      and 7.24.4.4 of ISO/IEC 9899:2011 fix its sign. */
  function Order(c: Call, x: seq<u8>, y: seq<u8>, stops: bool, limit: Option<nat>, i: nat): int
    decreases |x| - i
  {
    if limit == Some(i) || i >= |x| || i >= |y| then 0
    else if Folded(c, x[i]) != Folded(c, y[i]) then Folded(c, x[i]) - Folded(c, y[i])
    else if stops && x[i] == 0 then 0
    else Order(c, x, y, stops, limit, i + 1)
  }

  predicate IsString(k: Callee) { !k.Memcmp? && !k.Bcmp? }

  function SizeOf(c: Call, n: nat): Option<nat> {
    match c.size
    case NoSize => None
    case ConstSize(k) => Some(k)
    case RunSize => Some(n)
  }

  /** The result asked of the library, with the operands in the order of the call; `known` is
      the constant operand in memory. */
  function Library(c: Call, known: seq<u8>, mem: seq<u8>, n: nat): int {
    LibraryFrom(c, known, mem, n, 0)
  }

  function LibraryFrom(c: Call, known: seq<u8>, mem: seq<u8>, n: nat, i: nat): int {
    if c.constFirst then Order(c, known, mem, IsString(c.callee), SizeOf(c, n), i)
    else Order(c, mem, known, IsString(c.callee), SizeOf(c, n), i)
  }

  /** The constant operand in memory: it begins with what is known of it, and a string has its NUL. */
  ghost predicate Holds(c: Call, known: seq<u8>)
    requires Selected(c)
  {
    && c.raw <= known
    && (IsString(c.callee) ==> ConstStr(c) <= known)
  }

  /** What the library may be asked to read: a string up to its NUL, or as many bytes as the size. */
  ghost predicate Readable(c: Call, mem: seq<u8>, n: nat) {
    || (IsString(c.callee) && FirstNul(mem) < |mem|)
    || (SizeOf(c, n).Some? && SizeOf(c, n).value <= |mem|)
  }

  lemma SextSigns(d: int)
    requires -256 < d < 256
    ensures Sext8(d) == 0 <==> d == 0
    ensures -128 <= d <= 127 <==> Sext8(d) == d
    ensures d != 0 ==> ((Sext8(d) < 0 <==> d < 0) <==> -128 <= d <= 127)
  {
  }

  lemma ConstStrIs(c: Call) returns (t: seq<u8>)
    requires Selected(c) && IsString(c.callee)
    ensures FirstNul(t) < |t| && t[FirstNul(t)] == 0 && ConstStr(c) == t[..FirstNul(t) + 1]
  {
    t := if c.raw[|c.raw| - 1] != 0 then c.raw + [0] else c.raw;
    assert t[|t| - 1] == 0;
  }

  lemma ConstStrBytes(c: Call, k: nat)
    requires Selected(c) && IsString(c.callee) && k < |ConstStr(c)|
    ensures ConstStr(c)[k] == 0 <==> k == |ConstStr(c)| - 1
  {
    hide FirstNul, ConstStr;
    var t := ConstStrIs(c);
    assert ConstStr(c)[k] == t[k];
  }

  lemma {:induction false} OrderBounds(c: Call, x: seq<u8>, y: seq<u8>, stops: bool, limit: Option<nat>, i: nat)
    ensures -256 < Order(c, x, y, stops, limit, i) < 256
    decreases |x| - i
  {
    if i < |x| {
      OrderBounds(c, x, y, stops, limit, i + 1);
    }
  }

  /** One byte of a comparison. */
  lemma LibraryStep(c: Call, known: seq<u8>, mem: seq<u8>, n: nat, i: nat)
    requires i < |known| && i < |mem| && SizeOf(c, n) != Some(i)
    ensures LibraryFrom(c, known, mem, n, i) ==
            if Folded(c, mem[i]) != Folded(c, known[i]) then Difference(c, mem[i], Folded(c, known[i]))
            else if IsString(c.callee) && mem[i] == 0 then 0
            else LibraryFrom(c, known, mem, n, i + 1)
  {
  }

  lemma LibraryStops(c: Call, known: seq<u8>, mem: seq<u8>, n: nat)
    requires SizeOf(c, n).Some?
    ensures LibraryFrom(c, known, mem, n, SizeOf(c, n).value) == 0
  {
  }

  /** Strings: as long as the bytes have been equal and not NUL, the chain computes what is asked. */
  lemma {:induction false} StringMeaning(c: Call, known: seq<u8>, mem: seq<u8>, n: nat, i: nat)
    requires Selected(c) && IsString(c.callee) && Holds(c, known) && Readable(c, mem, n)
    requires i < UnrollLen(c) && i <= FirstNul(mem) && (c.size.RunSize? ==> i <= n)
    ensures Meaning(c, mem, n, i) == Returned(Sext8(LibraryFrom(c, known, mem, n, i)))
    decreases UnrollLen(c) - i
  {
    hide FirstNul, Sext8, LibraryFrom, ConstStr;
    SextSigns(0);
    var ch := ConstStr(c)[i];
    ConstStrBytes(c, i);
    assert known[i] == ch;
    if SizeOf(c, n) == Some(i) {
      assert ChecksSize(c);
      LibraryStops(c, known, mem, n);
    } else if i >= |mem| {
      assert false;
    } else {
      LibraryStep(c, known, mem, n, i);
      if Folded(c, mem[i]) == Folded(c, ch) {
        if i < UnrollLen(c) - 1 {
          assert ch != 0 && mem[i] != 0;
          NulNotHere(mem, i);
          StringMeaning(c, known, mem, n, i + 1);
        } else if ch != 0 {
          LibraryStops(c, known, mem, n);
        }
      }
    }
  }

  lemma NulNotHere(mem: seq<u8>, i: nat)
    requires i < |mem| && i <= FirstNul(mem) && mem[i] != 0
    ensures i + 1 <= FirstNul(mem)
  {
  }

  /** Memory, when the size is within what is known of the constant. */
  lemma {:induction false} MemoryMeaning(c: Call, known: seq<u8>, mem: seq<u8>, n: nat, i: nat)
    requires Selected(c) && c.callee.Memcmp? && Holds(c, known) && c.size.n <= |c.raw| && c.size.n <= |mem|
    requires i < c.size.n
    ensures Meaning(c, mem, n, i) == Returned(Sext8(LibraryFrom(c, known, mem, n, i)))
    decreases c.size.n - i
  {
    hide Sext8;
    assert known[i] == c.raw[i];
    if i + 1 < c.size.n {
      MemoryMeaning(c, known, mem, n, i + 1);
    } else {
      assert LibraryFrom(c, known, mem, n, i + 1) == 0;
    }
  }

  /** The replaced call: for the string functions, and for memcmp within the known constant, the
      chain reads nothing the library could not, returns 0 exactly when the library does, the
      exact difference when that fits a signed byte, and the right sign exactly then. */
  lemma ChainIsLibrary(c: Call, g: Chain, known: seq<u8>, mem: seq<u8>, n: nat)
    requires Selected(c) && Built(c, g.blocks, g.phi, UnrollLen(c)) && Holds(c, known) && Readable(c, mem, n)
    requires IsString(c.callee) || (c.callee.Memcmp? && c.size.n <= |c.raw|)
    ensures var d := Library(c, known, mem, n);
            exists r :: Run(c, g, 0, mem, n, 2 * UnrollLen(c)) == Returned(r)
              && (r == 0 <==> d == 0)
              && (r == d <==> -128 <= d <= 127)
              && (d != 0 ==> ((r < 0 <==> d < 0) <==> -128 <= d <= 127))
  {
    hide Meaning, Run, Order, ConstStr, UnrollLen;
    RunIsMeaning(c, g, mem, n, 0, 2 * UnrollLen(c));
    if IsString(c.callee) {
      StringMeaning(c, known, mem, n, 0);
    } else {
      MemoryMeaning(c, known, mem, n, 0);
    }
    var d := Library(c, known, mem, n);
    OrderBounds(c, known, mem, IsString(c.callee), SizeOf(c, n), 0);
    OrderBounds(c, mem, known, IsString(c.callee), SizeOf(c, n), 0);
    SextSigns(d);
    assert Run(c, g, 0, mem, n, 2 * UnrollLen(c)) == Returned(Sext8(d));
  }

  // ---- what the functions are asked for, byte by byte ----

  /** A letter in its two cases. */
  predicate TwoCases(x: u8, y: u8) { (65 <= x <= 90 && y == x + 32) || (65 <= y <= 90 && x == y + 32) }

  /** Bytes that a function takes for the same. */
  predicate SameByte(k: Callee, x: u8, y: u8) {
    match k
    case Strcmp | Strncmp | Memcmp | Bcmp => x == y
    case Strcasecmp | Strncasecmp => x == y || TwoCases(x, y)
  }

  /** What is compared in place of x: for the caseless functions a letter in lower case. */
  predicate ComparedAs(k: Callee, x: u8, a: u8) {
    match k
    case Strcmp | Strncmp | Memcmp | Bcmp => a == x
    case Strcasecmp | Strncasecmp => !(65 <= a <= 90) && (a == x || TwoCases(a, x))
  }

  /** Position i is compared if those before are the same: below the limit and, in strings, not after the NUL. */
  predicate Reached(k: Callee, mem: seq<u8>, limit: Option<nat>, i: nat) {
    && i < |mem| && (limit.Some? ==> i < limit.value)
    && match k
       case Strcmp | Strncmp | Strcasecmp | Strncasecmp => i <= FirstNul(mem)
       case Memcmp | Bcmp => true
  }

  ghost predicate SameUpTo(k: Callee, known: seq<u8>, mem: seq<u8>, limit: Option<nat>) {
    forall i: nat :: Reached(k, mem, limit, i) ==> i < |known| && SameByte(k, mem[i], known[i])
  }

  /** The first bytes that are not the same are those at i, and d is their difference. */
  ghost predicate DiffersAt(c: Call, known: seq<u8>, mem: seq<u8>, limit: Option<nat>, i: nat, d: int) {
    && Reached(c.callee, mem, limit, i) && i < |known| && !SameByte(c.callee, mem[i], known[i])
    && (forall j :: 0 <= j < i ==> SameByte(c.callee, mem[j], known[j]))
    && exists a: u8, b: u8 :: ComparedAs(c.callee, mem[i], a) && ComparedAs(c.callee, known[i], b) &&
                              d == if c.constFirst then b - a else a - b
  }

  lemma FoldedBytes(c: Call, x: u8, y: u8)
    ensures Folded(c, x) == Folded(c, y) <==> SameByte(c.callee, x, y)
    ensures ComparedAs(c.callee, x, Folded(c, x))
  {
  }

  /** What can be read, of the other operand and of the constant. */
  ghost predicate BothReadable(c: Call, known: seq<u8>, mem: seq<u8>, n: nat)
    requires Selected(c)
  {
    if IsString(c.callee) then Holds(c, known) && Readable(c, mem, n)
    else c.size.n <= |known| && c.size.n <= |mem|
  }

  /** The library call: 0 for bytes that are all the same, else the difference of the first that are not. */
  lemma LibraryByBytes(c: Call, known: seq<u8>, mem: seq<u8>, n: nat)
    requires Selected(c) && BothReadable(c, known, mem, n)
    ensures var d := Library(c, known, mem, n);
            && (d == 0 <==> SameUpTo(c.callee, known, mem, SizeOf(c, n)))
            && (d != 0 ==> exists i: nat :: DiffersAt(c, known, mem, SizeOf(c, n), i, d))
  {
    hide LibraryFrom, SameUpTo, DiffersAt;
    BytesFrom(c, known, mem, n, 0);
  }

  lemma NulHere(mem: seq<u8>, i: nat)
    requires i < |mem| && i <= FirstNul(mem) && mem[i] == 0
    ensures FirstNul(mem) == i
  {
  }

  lemma NulEndsConst(c: Call)
    requires Selected(c) && IsString(c.callee)
    ensures ConstStr(c)[|ConstStr(c)| - 1] == 0
  {
    ConstStrBytes(c, |ConstStr(c)| - 1);
  }

  /** Where all bytes before are the same, there is one more to compare, unless the limit is reached. */
  lemma InReach(c: Call, known: seq<u8>, mem: seq<u8>, n: nat, i: nat)
    requires Selected(c) && BothReadable(c, known, mem, n)
    requires i <= |mem| && (IsString(c.callee) ==> i <= FirstNul(mem)) && SizeOf(c, n) != Some(i)
    requires SizeOf(c, n).Some? ==> i <= SizeOf(c, n).value
    requires forall j :: 0 <= j < i ==> j < |known| && SameByte(c.callee, mem[j], known[j])
    ensures i < |known| && Reached(c.callee, mem, SizeOf(c, n), i)
  {
    hide ConstStr, FirstNul;
    if IsString(c.callee) {
      NulEndsConst(c);
      EndsThere(c.callee, known, mem, |ConstStr(c)| - 1, i);
    }
  }

  lemma EndsThere(k: Callee, known: seq<u8>, mem: seq<u8>, last: nat, i: nat)
    requires last < |known| && known[last] == 0 && i <= |mem| && i <= FirstNul(mem)
    requires forall j :: 0 <= j < i ==> j < |known| && SameByte(k, mem[j], known[j])
    ensures i <= last
  {
    var x := if last < |mem| then mem[last] else 0;
    assert last < i ==> x != 0;
  }

  lemma {:induction false} BytesFrom(c: Call, known: seq<u8>, mem: seq<u8>, n: nat, i: nat)
    requires Selected(c) && BothReadable(c, known, mem, n)
    requires i <= |mem| && (IsString(c.callee) ==> i <= FirstNul(mem))
    requires SizeOf(c, n).Some? ==> i <= SizeOf(c, n).value
    requires forall j :: 0 <= j < i ==> j < |known| && SameByte(c.callee, mem[j], known[j])
    ensures var d := LibraryFrom(c, known, mem, n, i);
            && (d == 0 <==> SameUpTo(c.callee, known, mem, SizeOf(c, n)))
            && (d != 0 ==> exists i: nat :: DiffersAt(c, known, mem, SizeOf(c, n), i, d))
    decreases |mem| - i
  {
    hide LibraryFrom, Order, FirstNul, Folded, ConstStr;
    var limit := SizeOf(c, n);
    if limit == Some(i) {
      LibraryStops(c, known, mem, n);
      forall k: nat | Reached(c.callee, mem, limit, k)
        ensures k < |known| && SameByte(c.callee, mem[k], known[k])
      {
        assert k < i;
      }
    } else {
      InReach(c, known, mem, n, i);
      LibraryStep(c, known, mem, n, i);
      FoldedBytes(c, mem[i], known[i]);
      FoldedBytes(c, known[i], mem[i]);
      if Folded(c, mem[i]) != Folded(c, known[i]) {
        assert DiffersAt(c, known, mem, limit, i, LibraryFrom(c, known, mem, n, i));
      } else if IsString(c.callee) && mem[i] == 0 {
        NulHere(mem, i);
        assert SameUpTo(c.callee, known, mem, limit);
      } else {
        if IsString(c.callee) {
          NulNotHere(mem, i);
        }
        BytesFrom(c, known, mem, n, i + 1);
      }
    }
  }

  /** The chain gives 0 exactly when all bytes that the function compares are the same to it. */
  lemma ChainByBytes(c: Call, g: Chain, known: seq<u8>, mem: seq<u8>, n: nat)
    requires Selected(c) && Built(c, g.blocks, g.phi, UnrollLen(c)) && Holds(c, known) && Readable(c, mem, n)
    requires IsString(c.callee) || (c.callee.Memcmp? && c.size.n <= |c.raw|)
    ensures Run(c, g, 0, mem, n, 2 * UnrollLen(c)) == Returned(0) <==>
            SameUpTo(c.callee, known, mem, SizeOf(c, n))
  {
    hide Run, LibraryFrom, SameUpTo, DiffersAt, ConstStr, UnrollLen, Built, FirstNul;
    ChainIsLibrary(c, g, known, mem, n);
    LibraryByBytes(c, known, mem, n);
  }

  // ---- where the meaning is lost ----

  /** Without a size at run time, the chain gives 0 exactly on the bytes it was built from. */
  lemma {:induction false} MeaningZero(c: Call, mem: seq<u8>, n: nat, i: nat)
    requires Selected(c) && !ChecksSize(c) && !IgnoresCase(c.callee) && i < UnrollLen(c) <= |mem|
    ensures Meaning(c, mem, n, i) == Returned(0) <==> mem[i..UnrollLen(c)] == ConstStr(c)[i..UnrollLen(c)]
    decreases UnrollLen(c) - i
  {
    hide Sext8, ConstStr, UnrollLen;
    var u := UnrollLen(c);
    var x, y := mem[i..u], ConstStr(c)[i..u];
    SextSigns(Difference(c, mem[i], ConstStr(c)[i]));
    if i < u - 1 {
      MeaningZero(c, mem, n, i + 1);
      assert x == [mem[i]] + mem[i + 1..u] && y == [ConstStr(c)[i]] + ConstStr(c)[i + 1..u];
      assert mem[i] == ConstStr(c)[i] ==> (x == y <==> mem[i + 1..u] == ConstStr(c)[i + 1..u]) by {
        assert x == y ==> x[1..] == y[1..];
      }
    }
    assert mem[i] != ConstStr(c)[i] ==> x != y by {
      assert x[0] == mem[i] && y[0] == ConstStr(c)[i];
    }
  }

  lemma {:induction false} OrderZero(c: Call, x: seq<u8>, y: seq<u8>, n: nat, i: nat)
    requires !IgnoresCase(c.callee) && i <= n <= |x| && n <= |y|
    ensures Order(c, x, y, false, Some(n), i) == 0 <==> x[i..n] == y[i..n]
    decreases n - i
  {
    if i < n {
      OrderZero(c, x, y, n, i + 1);
      var s, t := x[i..n], y[i..n];
      assert s == [x[i]] + x[i + 1..n] && t == [y[i]] + y[i + 1..n];
      assert s == t ==> s[0] == t[0] && s[1..] == t[1..];
    }
  }

  /** For one content of the other operand the chain and the library agree on being zero. */
  ghost predicate AgreeOnZero(c: Call, known: seq<u8>, mem: seq<u8>)
    requires Selected(c)
  {
    Meaning(c, mem, 0, 0) == Returned(0) <==> Library(c, known, mem, 0) == 0
  }

  /** The chain gives the library's difference, cut to eight bits. */
  ghost predicate AgreeOnValue(c: Call, known: seq<u8>, mem: seq<u8>)
    requires Selected(c)
  {
    Meaning(c, mem, 0, 0) == Returned(Sext8(Library(c, known, mem, 0)))
  }

  lemma AgreeWhen(c: Call, known: seq<u8>, mem: seq<u8>)
    requires Selected(c) && !IsString(c.callee) && UnrollLen(c) <= |mem|
    requires c.size.n <= |known| && c.size.n <= |mem|
    ensures AgreeOnZero(c, known, mem) <==>
            (mem[..UnrollLen(c)] == ConstStr(c)[..UnrollLen(c)] <==> mem[..c.size.n] == known[..c.size.n])
  {
    hide Meaning, ConstStr, UnrollLen;
    MeaningZero(c, mem, 0, 0);
    OrderZero(c, known, mem, c.size.n, 0);
    OrderZero(c, mem, known, c.size.n, 0);
    assert mem[0..UnrollLen(c)] == mem[..UnrollLen(c)] && ConstStr(c)[0..UnrollLen(c)] == ConstStr(c)[..UnrollLen(c)];
    assert mem[0..c.size.n] == mem[..c.size.n] && known[0..c.size.n] == known[..c.size.n];
  }

  /** The operand `known` with another byte at `k`. */
  function Flip(s: seq<u8>, k: nat): seq<u8>
    requires k < |s|
  {
    s[k := if s[k] == 0 then 1 else 0]
  }

  /** memcmp keeps its meaning if and only if the size is within what is known of the constant. */
  lemma MemcmpExactly(c: Call, known: seq<u8>)
    requires Selected(c) && c.callee.Memcmp? && Holds(c, known) && c.size.n <= |known|
    ensures (forall mem: seq<u8> :: c.size.n <= |mem| ==> AgreeOnZero(c, known, mem)) <==> c.size.n <= |c.raw|
    ensures (forall mem: seq<u8> :: c.size.n <= |mem| ==> AgreeOnValue(c, known, mem)) <==> c.size.n <= |c.raw|
  {
    var n := c.size.n;
    forall mem: seq<u8>
      ensures AgreeOnValue(c, known, mem) ==> AgreeOnZero(c, known, mem)
    {
      OrderBounds(c, known, mem, IsString(c.callee), SizeOf(c, 0), 0);
      OrderBounds(c, mem, known, IsString(c.callee), SizeOf(c, 0), 0);
      SextSigns(Library(c, known, mem, 0));
    }
    if n <= |c.raw| {
      forall mem: seq<u8> | n <= |mem|
        ensures AgreeOnZero(c, known, mem)
      {
        AgreeWhen(c, known, mem);
        assert ConstStr(c)[..n] == known[..n];
      }
      forall mem: seq<u8> | n <= |mem|
        ensures AgreeOnValue(c, known, mem)
      {
        MemoryMeaning(c, known, mem, 0, 0);
      }
    } else {
      var mem := Flip(known, |c.raw|);
      AgreeWhen(c, known, mem);
      assert mem[..|c.raw|] == c.raw[..|c.raw|];
      assert mem[..n][|c.raw|] != known[..n][|c.raw|];
      assert !AgreeOnZero(c, known, mem);
    }
  }

  /** bcmp is compiled as a comparison of strings: it keeps its meaning if and only if the size
      is the length of the constant string with its NUL, and that is what the constant holds. */
  lemma BcmpExactly(c: Call, known: seq<u8>)
    requires Selected(c) && c.callee.Bcmp? && Holds(c, known) && c.size.n <= |known|
    ensures (forall mem: seq<u8> :: c.size.n <= |mem| && |ConstStr(c)| <= |mem| ==> AgreeOnZero(c, known, mem))
            <==> known[..c.size.n] == ConstStr(c)
  {
    var n, s := c.size.n, ConstStr(c);
    assert s[..|s|] == s;
    if known[..n] == s {
      forall mem: seq<u8> | n <= |mem| && |s| <= |mem|
        ensures AgreeOnZero(c, known, mem)
      {
        AgreeWhen(c, known, mem);
      }
    } else {
      var mem := BcmpWitness(c, known);
      assert !AgreeOnZero(c, known, mem);
    }
  }

  lemma BcmpWitness(c: Call, known: seq<u8>) returns (mem: seq<u8>)
    requires Selected(c) && c.callee.Bcmp? && c.size.n <= |known| && known[..c.size.n] != ConstStr(c)
    ensures c.size.n <= |mem| && |ConstStr(c)| <= |mem| && !AgreeOnZero(c, known, mem)
  {
    hide ConstStr, Library, Meaning;
    var n, s := c.size.n, ConstStr(c);
    assert s[..|s|] == s;
    if n < |s| {
      if known[..n] == s[..n] {
        mem := Flip(s, n);
        assert mem[..n] == s[..n] && mem[..|s|][n] != s[n];
      } else {
        mem := s;
      }
    } else if known[..|s|] == s {
      mem := Flip(known, |s|);
      assert mem[..|s|] == known[..|s|] && mem[..n][|s|] != known[..n][|s|];
    } else {
      mem := s + known[|s|..];
      assert mem[..|s|] == s && mem[..n][..|s|] == s && known[..n][..|s|] == known[..|s|];
    }
    AgreeWhen(c, known, mem);
  }

  // "abcd" and "abc" as bytes.
  const ABCD: seq<u8> := [97, 98, 99, 100]
  const ABC: seq<u8> := [97, 98, 99]

  /** bcmp(x, "abcd", 4) is replaced, and is 0 for "abcde", where the chain, which takes in the NUL, is not. */
  lemma BcmpFails()
    ensures var c, known, mem := Call(Bcmp, ABCD, false, ConstSize(4)), ABCD + [0], ABCD + [101];
            && Selected(c) && Holds(c, known) && known[..4] != ConstStr(c)
            && Library(c, known, mem, 0) == 0 && Meaning(c, mem, 0, 0) == Returned(101)
  {
    var c, known, mem := Call(Bcmp, ABCD, false, ConstSize(4)), ABCD + [0], ABCD + [101];
    OrderZero(c, mem, known, 4, 0);
    assert mem[0..4] == ABCD == known[0..4];
    assert ConstStr(c) == known by {
      FirstNulOfAbcd(known);
    }
    assert Meaning(c, mem, 0, 4) == Returned(101);
    assert Meaning(c, mem, 0, 3) == Returned(101);
    assert Meaning(c, mem, 0, 2) == Returned(101);
    assert Meaning(c, mem, 0, 1) == Returned(101);
  }

  lemma FirstNulOfAbcd(known: seq<u8>)
    requires known == ABCD + [0]
    ensures FirstNul(known) == 4 && known[..5] == known
  {
    assert FirstNul(known[4..]) == 0;
    assert FirstNul(known[3..]) == 1;
    assert FirstNul(known[2..]) == 2;
    assert FirstNul(known[1..]) == 3;
  }

  /** memcmp(x, "abc\0d", 5) with "abc" known is replaced, and is not 0 for "abc\0e", where the chain is. */
  lemma MemcmpFails()
    ensures var c, known, mem := Call(Memcmp, ABC, false, ConstSize(5)), ABC + [0, 100], ABC + [0, 101];
            && Selected(c) && Holds(c, known)
            && Library(c, known, mem, 0) == 1 && Meaning(c, mem, 0, 0) == Returned(0)
  {
    var c, known, mem := Call(Memcmp, ABC, false, ConstSize(5)), ABC + [0, 100], ABC + [0, 101];
    assert Order(c, mem, known, false, Some(5), 4) == 1;
    assert Order(c, mem, known, false, Some(5), 3) == 1;
    assert Order(c, mem, known, false, Some(5), 2) == 1;
    assert Order(c, mem, known, false, Some(5), 1) == 1;
    MeaningZero(c, mem, 0, 0);
  }
}
