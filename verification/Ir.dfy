/**
 * Functions of an intermediate representation with phi nodes: blocks, edges, and where
 * control goes for given runtime values.
 */
module Ir {
  import opened Words

  datatype Case = Case(value: nat, dest: nat)

  datatype Incoming = Incoming(value: nat, from: nat)

  type Phi = seq<Incoming>

  /** `val`, `value`: names of runtime values. Blocks are named by their position. */
  datatype Terminator =
    | Unset
    | Jump(dest: nat)
    | Switch(val: nat, width: nat, cases: seq<Case>, default: nat)
    | ByteEq(val: nat, index: nat, byte: nat, yes: nat, no: nat)
    | ByteLess(val: nat, index: nat, byte: nat, yes: nat, no: nat)
    | Other(val: nat, targets: seq<nat>)

  datatype Block = Block(phis: seq<Phi>, term: Terminator)

  type Env = map<nat, nat>

  function Value(env: Env, val: nat): nat { if val in env then env[val] else 0 }

  function SwitchTarget(cases: seq<Case>, default: nat, v: nat): nat {
    if cases == [] then default
    else if cases[0].value == v then cases[0].dest
    else SwitchTarget(cases[1..], default, v)
  }

  /** Where a terminator goes, if it goes to a block at all. */
  function Next(t: Terminator, env: Env): Option<nat> {
    match t
    case Unset => None
    case Jump(dest) => Some(dest)
    case Switch(val, _, cases, default) => Some(SwitchTarget(cases, default, Value(env, val)))
    case ByteEq(val, i, byte, yes, no) => Some(if ByteAt(Value(env, val), i) == byte then yes else no)
    case ByteLess(val, i, byte, yes, no) => Some(if ByteAt(Value(env, val), i) < byte then yes else no)
    case Other(val, targets) => if Value(env, val) < |targets| then Some(targets[Value(env, val)]) else None
  }

  /** Edges of a decision node into `t`. */
  function EdgesInto(term: Terminator, t: nat): nat {
    match term
    case Jump(dest) => if dest == t then 1 else 0
    case ByteEq(_, _, _, yes, no) => (if yes == t then 1 else 0) + (if no == t then 1 else 0)
    case ByteLess(_, _, _, yes, no) => (if yes == t then 1 else 0) + (if no == t then 1 else 0)
    case _ => 0
  }

  datatype Edge = Edge(from: nat, to: nat)

  /** On the edge `from` to `b`, through blocks from `base` on, to the first edge into a block below `base`. */
  function Follow(blocks: seq<Block>, base: nat, from: nat, b: nat, env: Env, fuel: nat): Option<Edge>
    decreases fuel
  {
    if b < base then Some(Edge(from, b))
    else if fuel == 0 || b >= |blocks| then None
    else
      var next := Next(blocks[b].term, env);
      if next.None? then None else Follow(blocks, base, b, next.value, env, fuel - 1)
  }

  /** Leaving block `b`, control next enters a block below `base` along the edge `e`. */
  ghost predicate Transfers(blocks: seq<Block>, base: nat, b: nat, env: Env, e: Edge) {
    && b < |blocks|
    && Next(blocks[b].term, env).Some?
    && exists fuel :: Follow(blocks, base, b, Next(blocks[b].term, env).value, env, fuel) == Some(e)
  }

  function PhiValue(phi: Phi, from: nat): Option<nat> {
    if phi == [] then None
    else if phi[0].from == from then Some(phi[0].value)
    else PhiValue(phi[1..], from)
  }

  function Count(phi: Phi, from: nat): nat {
    if phi == [] then 0 else (if phi[0].from == from then 1 else 0) + Count(phi[1..], from)
  }

  // ---- following edges ----

  /** Terminators that were set stay as they were. */
  ghost predicate Extends(a: seq<Block>, b: seq<Block>) {
    |a| <= |b| && forall i :: 0 <= i < |a| ==> a[i].term.Unset? || a[i].term == b[i].term
  }

  /** The same, for the blocks from `base` on. */
  ghost predicate ExtendsFrom(a: seq<Block>, b: seq<Block>, base: nat) {
    |a| <= |b| && forall i :: base <= i < |a| ==> a[i].term.Unset? || a[i].term == b[i].term
  }

  lemma {:induction false} FollowExtends(a: seq<Block>, b: seq<Block>, base: nat, from: nat, c: nat, env: Env,
                                         fuel: nat, more: nat)
    requires (Extends(a, b) || ExtendsFrom(a, b, base)) && fuel <= more
    requires Follow(a, base, from, c, env, fuel).Some?
    ensures Follow(b, base, from, c, env, more) == Follow(a, base, from, c, env, fuel)
    decreases fuel
  {
    if c >= base {
      FollowExtends(a, b, base, c, Next(a[c].term, env).value, env, fuel - 1, more - 1);
    }
  }

  /** Two stretches make one. */
  lemma {:induction false} FollowOn(a: seq<Block>, base: nat, stop: nat, from: nat, c: nat, env: Env, m: nat, n: nat)
    requires base <= stop && Follow(a, stop, from, c, env, m).Some?
    ensures var e := Follow(a, stop, from, c, env, m).value;
            Follow(a, base, e.from, e.to, env, n).Some? ==>
            Follow(a, base, from, c, env, m + n) == Follow(a, base, e.from, e.to, env, n)
    decreases m
  {
    if c >= stop {
      FollowOn(a, base, stop, c, Next(a[c].term, env).value, env, m - 1, n);
    } else {
      var e := Follow(a, stop, from, c, env, m).value;
      if Follow(a, base, e.from, e.to, env, n).Some? {
        FollowExtends(a, a, base, from, c, env, n, m + n);
      }
    }
  }

  /** The last edge followed is an edge of its block. */
  lemma {:induction false} FollowedEdge(a: seq<Block>, base: nat, from: nat, c: nat, env: Env, fuel: nat)
    requires c >= base && Follow(a, base, from, c, env, fuel).Some?
    ensures var e := Follow(a, base, from, c, env, fuel).value;
            base <= e.from < |a| && Next(a[e.from].term, env) == Some(e.to) && e.to < base
    decreases fuel
  {
    var next := Next(a[c].term, env).value;
    if next >= base {
      FollowedEdge(a, base, c, next, env, fuel - 1);
    }
  }

  lemma TransfersOnce(a: seq<Block>, base: nat, b: nat, env: Env, e: Edge, f: Edge)
    requires Transfers(a, base, b, env, e) && Transfers(a, base, b, env, f)
    ensures e == f
  {
    var c := Next(a[b].term, env).value;
    var m :| Follow(a, base, b, c, env, m) == Some(e);
    var n :| Follow(a, base, b, c, env, n) == Some(f);
    if m <= n {
      FollowExtends(a, a, base, b, c, env, m, n);
    } else {
      FollowExtends(a, a, base, b, c, env, n, m);
    }
  }

  // ---- phi entries ----

  lemma {:induction false} CountPositive(phi: Phi, from: nat)
    ensures Count(phi, from) > 0 <==> exists i :: 0 <= i < |phi| && phi[i].from == from
    ensures Count(phi, from) > 0 <==> PhiValue(phi, from).Some?
  {
    if phi != [] {
      CountPositive(phi[1..], from);
      if i :| 0 <= i < |phi[1..]| && phi[1..][i].from == from {
        assert phi[i + 1].from == from;
      }
      if i :| 0 <= i < |phi| && phi[i].from == from && i > 0 {
        assert phi[1..][i - 1].from == from;
      }
    }
  }

  /** The entries of `from` sit at the same places with the same values. */
  lemma {:induction false} SameEntries(phi: Phi, psi: Phi, from: nat)
    requires |phi| == |psi|
    requires forall i :: 0 <= i < |phi| ==> (phi[i].from == from <==> psi[i].from == from)
    requires forall i :: 0 <= i < |phi| ==> phi[i].value == psi[i].value
    ensures Count(phi, from) == Count(psi, from) && PhiValue(phi, from) == PhiValue(psi, from)
  {
    if phi != [] {
      SameEntries(phi[1..], psi[1..], from);
    }
  }

  lemma {:induction false} PhiValueFound(phi: Phi, from: nat, value: nat)
    requires Count(phi, from) > 0
    requires forall i :: 0 <= i < |phi| && phi[i].from == from ==> phi[i].value == value
    ensures PhiValue(phi, from) == Some(value)
  {
    if phi[0].from != from {
      PhiValueFound(phi[1..], from, value);
    }
  }
}
