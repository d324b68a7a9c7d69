/**
 * A circular doubly linked list whose elements come from a pool of 64, and from malloc when
 * that is used up. The first pool element is the head.
 */
module PoolList {

  const POOL_SIZE: nat := 64

  datatype Status = Unused | Used | Malloc

  /** A pointer to some caller's data; 0 is NULL. */
  type Data = nat

  class Element {
    var status: Status
    var prev: Element?
    var next: Element?
    var data: Data

    /** Zeroed memory. */
    constructor ()
      ensures status == Unused && prev == null && next == null && data == 0
    {
      status, prev, next, data := Unused, null, null, 0;
    }
  }

  // ---- sequences ----

  function Without<T>(s: seq<T>, k: nat): seq<T>
    requires k < |s|
  {
    s[..k] + s[k + 1..]
  }

  lemma WithoutMembers<T>(s: seq<T>, k: nat)
    requires k < |s| && forall i, j :: 0 <= i < j < |s| ==> s[i] != s[j]
    ensures forall e :: e in Without(s, k) <==> e in s && e != s[k]
  {
    var w := Without(s, k);
    forall e | e in s && e != s[k]
      ensures e in w
    {
      var i :| 0 <= i < |s| && s[i] == e;
      assert w[if i < k then i else i - 1] == e;
    }
    forall e | e in w
      ensures e in s && e != s[k]
    {
      var i :| 0 <= i < |w| && w[i] == e;
      assert e == s[if i < k then i else i + 1];
    }
  }

  function CountUsed(s: seq<Status>): nat {
    if s == [] then 0 else (if s[0] == Used then 1 else 0) + CountUsed(s[1..])
  }

  lemma {:induction false} CountUpdate(s: seq<Status>, k: nat, x: Status)
    requires k < |s|
    ensures CountUsed(s[k := x]) == CountUsed(s) - (if s[k] == Used then 1 else 0) + (if x == Used then 1 else 0)
  {
    if k > 0 {
      CountUpdate(s[1..], k - 1, x);
      assert s[k := x][1..] == s[1..][k - 1 := x];
    } else {
      assert s[k := x][1..] == s[1..];
    }
  }

  lemma {:induction false} CountFull(s: seq<Status>)
    ensures CountUsed(s) <= |s|
    ensures (forall i :: 0 <= i < |s| ==> s[i] == Used) ==> CountUsed(s) == |s|
  {
    if s != [] {
      CountFull(s[1..]);
    }
  }

  lemma {:induction false} CountNone(s: seq<Status>)
    requires forall i :: 0 <= i < |s| ==> s[i] != Used
    ensures CountUsed(s) == 0
  {
    if s != [] {
      CountNone(s[1..]);
    }
  }

  /** What is left of `s` when element i is dropped if `drop[i]` says so. */
  function Keep(s: seq<Data>, drop: seq<bool>): seq<Data>
    requires |s| == |drop|
  {
    if s == [] then [] else (if drop[0] then [] else [s[0]]) + Keep(s[1..], drop[1..])
  }

  /** The sequence without its first `x`. */
  function RemoveFirst(s: seq<Data>, x: Data): seq<Data> {
    if s == [] then [] else if s[0] == x then s[1..] else [s[0]] + RemoveFirst(s[1..], x)
  }

  datatype Outcome = Done | Fatal

  class List {
    const pool: seq<Element>
    var count: int

    /** The head and the elements after it, in list order; their data without the head's; the
        states of the pool elements. */
    ghost var nodes: seq<Element>
    ghost var contents: seq<Data>
    ghost var statuses: seq<Status>

    /** Each node is linked to the next, and the last to the first. */
    ghost predicate Ring()
      reads this`nodes, nodes
    {
      && (forall i, j :: 0 <= i < j < |nodes| ==> nodes[i] != nodes[j])
      && (forall i {:trigger nodes[i].next} :: 0 <= i < |nodes| - 1 ==> nodes[i].next == nodes[i + 1])
      && (forall i {:trigger nodes[i].prev} :: 1 <= i < |nodes| ==> nodes[i].prev == nodes[i - 1])
      && (nodes != [] ==> nodes[|nodes| - 1].next == nodes[0] && nodes[0].prev == nodes[|nodes| - 1])
    }

    ghost predicate Holding()
      reads this`nodes, this`contents, nodes
    {
      && |contents| == |nodes| - 1
      && forall i :: 0 < i < |nodes| ==> nodes[i].data == contents[i - 1]
    }

    ghost predicate Distinct() {
      |pool| == POOL_SIZE && forall i, j :: 0 <= i < j < |pool| ==> pool[i] != pool[j]
    }

    /** The counter is the number of used pool elements. */
    ghost predicate Counted()
      reads this`count, this`statuses, pool
    {
      && |statuses| == |pool| && (forall i :: 0 <= i < |pool| ==> pool[i].status == statuses[i])
      && count == CountUsed(statuses)
    }

    /** Pool elements in the list are used, the others are not; all other list elements came from malloc. */
    ghost predicate Accounted()
      reads this`nodes, nodes, pool
    {
      && (forall e :: e in pool ==> e.status == if e in nodes then Used else Unused)
      && (forall e :: e in nodes && e !in pool ==> e.status == Malloc)
    }

    /** A ring that starts at the head. */
    ghost predicate Ready()
      reads this, nodes, pool
    {
      Distinct() && nodes != [] && nodes[0] == pool[0] && Ring() && Holding() && Counted() && Accounted()
    }

    /** A list is either untouched, its head without a successor, or ready. */
    ghost predicate Valid()
      reads this, nodes, pool
    {
      Distinct() && if pool[0].next == null then nodes == [] && contents == [] else Ready()
    }

    lemma ReadyIsValid()
      requires Ready()
      ensures Valid() && pool[0].next != null
    {
    }

    constructor ()
      ensures Valid() && nodes == [] && fresh(pool)
    {
      var p: seq<Element> := [];
      for i := 0 to POOL_SIZE
        invariant |p| == i && fresh(p)
        invariant forall a, b :: 0 <= a < b < |p| ==> p[a] != p[b]
        invariant forall a :: 0 <= a < |p| ==> p[a].next == null
      {
        var e := new Element();
        p := p + [e];
      }
      pool := p;
      count := 0;
      nodes, contents, statuses := [], [], [];
    }

    // ---- PRE_ALLOC, PRE_ALLOC_FORCE, PRE_FREE ----

    /** An unused pool element while there is one, otherwise memory from malloc. */
    method PreAlloc() returns (el: Element)
      requires Distinct() && nodes != [] && Counted() && Accounted()
      modifies this`count, this`statuses, pool`status
      ensures el !in nodes && (el in pool || fresh(el)) && Counted()
      ensures el.status == if el in pool then Used else Malloc
      ensures el in pool <==> old(count) < POOL_SIZE
      ensures forall e :: e in pool && e != el ==> e.status == old(e.status)
    {
      if count >= POOL_SIZE {
        CountFull(statuses);
        el := new Element();
        el.status := Malloc;
      } else {
        var i := 0;
        while i < POOL_SIZE && pool[i].status != Unused
          invariant 0 <= i <= POOL_SIZE
          invariant forall j :: 0 <= j < i ==> statuses[j] == Used
        {
          assert pool[i] in pool;
          i := i + 1;
        }
        CountFull(statuses);
        assert i < POOL_SIZE;
        el := pool[i];
        count := count + 1;
        el.status := Used;
        CountUpdate(statuses, i, Used);
        statuses := statuses[i := Used];
      }
    }

    /** The element leaves the books; it must have been in use. */
    method PreFree(el: Element)
      requires Distinct() && Counted() && el.status == if el in pool then Used else Malloc
      modifies this`count, this`statuses, el`status
      ensures el.status == Unused && Counted() && count >= 0
    {
      match el.status
      case Used =>
        el.status := Unused;
        count := count - 1;
        ghost var i :| 0 <= i < |pool| && pool[i] == el;
        CountUpdate(statuses, i, Unused);
        statuses := statuses[i := Unused];
      case Malloc =>
        el.status := Unused;
    }

    // ---- linking ----

    /** `box` goes between the last node and the head. */
    method Link(head: Element, box: Element, ghost last: Element)
      requires nodes != [] && nodes[0] == head && nodes[|nodes| - 1] == last && Ring() && box !in nodes
      modifies this`nodes, box`next, box`prev, head`prev, last`next
      ensures nodes == old(nodes) + [box] && Ring()
    {
      box.next := head;
      box.prev := head.prev;
      head.prev.next := box;
      head.prev := box;
      nodes := nodes + [box];
    }

    /** The node at `k` leaves the ring; its own links still point into it. */
    method Unlink(box: Element, ghost k: nat, ghost before: Element, ghost after: Element)
      requires Ring() && 0 < k < |nodes| && nodes[k] == box
      requires before == nodes[k - 1] && after == if k + 1 < |nodes| then nodes[k + 1] else nodes[0]
      modifies this`nodes, before`next, after`prev
      ensures nodes == Without(old(nodes), k) && Ring()
    {
      assert box.prev == before && box.next == after;
      box.prev.next := box.next;
      box.next.prev := box.prev;
      nodes := Without(nodes, k);
    }

    // ---- list.h ----

    /** memset of the whole list, then the head is taken and linked to itself. */
    method Initialize()
      requires Distinct()
      modifies this, pool
      ensures Ready() && nodes == [pool[0]]
    {
      forall e | e in pool { e.status := Unused; }
      forall e | e in pool { e.prev := null; }
      forall e | e in pool { e.next := null; }
      forall e | e in pool { e.data := 0; }
      count := 0;
      statuses := seq(|pool|, _ => Unused);
      CountNone(statuses);
      var head := pool[0];
      head.status := Used;
      count := count + 1;
      CountUpdate(statuses, 0, Used);
      statuses := statuses[0 := Used];
      head.next := head;
      head.prev := head;
      nodes, contents := [head], [];
    }

    /** list_append */
    method Append(el: Data)
      requires Valid()
      modifies this, pool, nodes
      ensures Valid() && nodes != [] && contents == old(contents) + [el]
      ensures forall e :: e in nodes ==> e in old(nodes) || e in pool || fresh(e)
    {
      if pool[0].next == null {
        Initialize();
      }
      AppendBox(el);
      ReadyIsValid();
    }

    method AppendBox(el: Data)
      requires Ready()
      modifies this, pool, nodes
      ensures Ready() && contents == old(contents) + [el]
      ensures exists box :: (box in pool || fresh(box)) && nodes == old(nodes) + [box]
    {
      hide CountUsed;
      var box := PreAlloc();
      Attach(pool[0], box, nodes[|nodes| - 1], el);
    }

    method Attach(head: Element, box: Element, ghost last: Element, el: Data)
      requires nodes != [] && nodes[0] == head && nodes[|nodes| - 1] == last && Ring() && Holding() && box !in nodes
      modifies this`nodes, this`contents, box`next, box`prev, box`data, head`prev, last`next
      ensures nodes == old(nodes) + [box] && contents == old(contents) + [el] && Ring() && Holding()
    {
      Link(head, box, last);
      box.data := el;
      contents := contents + [el];
    }

    /** The node at `k` is unlinked and freed; list_remove also clears its data. */
    method RemoveAt(box: Element, ghost k: nat, clear: bool)
      requires Ready() && 0 < k < |nodes| && nodes[k] == box
      modifies this, pool, nodes
      ensures Ready() && nodes == Without(old(nodes), k) && box.status == Unused
      ensures contents == Without(old(contents), k - 1)
    {
      hide CountUsed;
      WithoutMembers(nodes, k);
      Detach(box, k, nodes[k - 1], if k + 1 < |nodes| then nodes[k + 1] else nodes[0], clear);
      PreFree(box);
    }

    /** Off the ring, the books not yet changed. */
    method Detach(box: Element, ghost k: nat, ghost before: Element, ghost after: Element, clear: bool)
      requires nodes != [] && Ring() && Holding() && 0 < k < |nodes| && nodes[k] == box
      requires before == nodes[k - 1] && after == if k + 1 < |nodes| then nodes[k + 1] else nodes[0]
      modifies this`nodes, this`contents, before`next, after`prev, box`data
      ensures nodes == Without(old(nodes), k) && Ring() && Holding()
      ensures contents == Without(old(contents), k - 1)
    {
      Unlink(box, k, before, after);
      contents := Without(contents, k - 1);
      if clear { box.data := 0; }
    }

    /** Following `next` from a node leads through the list to the head. */
    lemma NextNode(k: nat)
      requires Ready() && k < |nodes|
      ensures nodes[k].next == if k + 1 < |nodes| then nodes[k + 1] else pool[0]
      ensures k > 0 ==> nodes[k] != pool[0] && contents[k - 1] == nodes[k].data
    {
    }

    /** list_remove: the first element holding `x`, or a fatal error if there is none. */
    method Remove(x: Data) returns (r: Outcome)
      requires Valid()
      modifies this, pool, nodes
      ensures Valid()
      ensures r == Done <==> x in old(contents)
      ensures contents == RemoveFirst(old(contents), x)
    {
      hide Ring, Accounted, RemoveFirst;
      var head := pool[0];
      var box := head.next;
      if box == null {
        RemoveFirstNone(contents, x);
        return Fatal;
      }
      ghost var k := 1;
      NextNode(0);
      while box != head
        invariant Ready() && nodes == old(nodes) && contents == old(contents)
        invariant 1 <= k <= |nodes| && box == if k < |nodes| then nodes[k] else head
        invariant x !in contents[..k - 1]
        decreases |nodes| - k
      {
        NextNode(k);
        if box.data == x {
          RemoveFirstAt(contents, x, k - 1);
          RemoveAt(box, k, true);
          ReadyIsValid();
          return Done;
        }
        box := box.next;
        assert contents[..k] == contents[..k - 1] + [contents[k - 1]];
        k := k + 1;
      }
      if k < |nodes| { NextNode(k); }
      assert contents[..k - 1] == contents;
      RemoveFirstNone(contents, x);
      ReadyIsValid();
      return Fatal;
    }

    /** list_contains; walking a list never appended to is a fatal error. */
    method Contains(x: Data) returns (r: Outcome, found: bool)
      requires Valid()
      ensures r == Fatal <==> nodes == []
      ensures r == Done ==> (found <==> x in contents)
    {
      hide Ring, Accounted;
      var head := pool[0];
      var box := head.next;
      if box == null { return Fatal, false; }
      ghost var k := 1;
      NextNode(0);
      while box != head
        invariant 1 <= k <= |nodes| && box == if k < |nodes| then nodes[k] else head
        invariant x !in contents[..k - 1]
        decreases |nodes| - k
      {
        NextNode(k);
        if box.data == x { return Done, true; }
        box := box.next;
        assert contents[..k] == contents[..k - 1] + [contents[k - 1]];
        k := k + 1;
      }
      if k < |nodes| { NextNode(k); }
      assert contents[..k - 1] == contents;
      return Done, false;
    }

    /** LIST_FOREACH whose block removes the i-th element it visits if `drop[i]` says so. */
    method ForeachRemove(drop: seq<bool>) returns (r: Outcome, visited: seq<Data>)
      requires Valid() && |drop| == |contents|
      modifies this, pool, nodes
      ensures Valid() && r == if old(nodes) == [] then Fatal else Done
      ensures visited == old(contents) && contents == Keep(old(contents), drop)
    {
      hide Ring, Accounted, Keep;
      visited := [];
      KeepNone();
      var head := pool[0];
      var box := head.next;
      if box == null {
        assert contents == [] && drop == [];
        return Fatal, [];
      }
      ghost var all, k := contents, 1;
      var j := 0;
      NextNode(0);
      while box != head
        invariant Ready() && 1 <= k <= |nodes| && box == if k < |nodes| then nodes[k] else head
        invariant 0 <= j <= |all| && visited == all[..j]
        invariant contents[..k - 1] == Keep(all[..j], drop[..j]) && contents[k - 1..] == all[j..]
        invariant forall i :: 0 <= i < |nodes| ==> nodes[i] in old(nodes)
        decreases |all| - j
      {
        NextNode(k);
        Walked(contents, all, drop, j, k - 1);
        var el := box.data;
        var next := box.next;
        visited := visited + [el];
        if drop[j] {
          RemoveAt(box, k, false);
        } else {
          k := k + 1;
        }
        box := next;
        j := j + 1;
      }
      if k < |nodes| { NextNode(k); }
      assert all[..j] == all && drop[..j] == drop && contents[..k - 1] == contents;
      ReadyIsValid();
      r := Done;
    }
  }

  lemma KeepNone()
    ensures Keep([], []) == []
  {
  }

  /** One step of the walk: `now` has kept `k` elements of those visited, and the rest. */
  lemma Walked(now: seq<Data>, all: seq<Data>, drop: seq<bool>, j: nat, k: nat)
    requires j < |all| == |drop| && k <= |now|
    requires now[..k] == Keep(all[..j], drop[..j]) && now[k..] == all[j..]
    ensures k < |now| && now[k] == all[j] && all[..j + 1] == all[..j] + [now[k]]
    ensures var after := if drop[j] then Without(now, k) else now;
            var m := if drop[j] then k else k + 1;
            m <= |after| && after[..m] == Keep(all[..j + 1], drop[..j + 1]) && after[m..] == all[j + 1..]
  {
    KeepNext(all, drop, j);
    assert now[k..][0] == all[j..][0];
    assert now[k + 1..] == now[k..][1..] == all[j + 1..];
    hide Keep;
    var w := Without(now, k);
    assert w[..k] == now[..k] && w[k..] == now[k + 1..];
    assert now[..k + 1] == now[..k] + [now[k]];
  }

  /** LIST_FOREACH_CLEAR removes every element it visits. */
  lemma {:induction false} KeepNothing(s: seq<Data>, drop: seq<bool>)
    requires |s| == |drop| && forall i :: 0 <= i < |drop| ==> drop[i]
    ensures Keep(s, drop) == []
  {
    if s != [] {
      KeepNothing(s[1..], drop[1..]);
    }
  }

  lemma {:induction false} RemoveFirstAt(s: seq<Data>, x: Data, k: nat)
    requires k < |s| && s[k] == x && x !in s[..k]
    ensures RemoveFirst(s, x) == Without(s, k)
  {
    if k > 0 {
      assert s[0] == s[..k][0] && s[1..][..k - 1] == s[..k][1..];
      RemoveFirstAt(s[1..], x, k - 1);
    }
  }

  lemma {:induction false} RemoveFirstNone(s: seq<Data>, x: Data)
    requires x !in s
    ensures RemoveFirst(s, x) == s
  {
    if s != [] {
      RemoveFirstNone(s[1..], x);
    }
  }

  lemma {:induction false} KeepNext(s: seq<Data>, drop: seq<bool>, j: nat)
    requires j < |s| == |drop|
    ensures Keep(s[..j + 1], drop[..j + 1]) == Keep(s[..j], drop[..j]) + (if drop[j] then [] else [s[j]])
  {
    if j > 0 {
      assert s[..j + 1][1..] == s[1..][..j] && s[..j][1..] == s[1..][..j - 1];
      assert drop[..j + 1][1..] == drop[1..][..j] && drop[..j][1..] == drop[1..][..j - 1];
      KeepNext(s[1..], drop[1..], j - 1);
    }
  }
}
