/** lwip/core/memp.c: pools of fixed-size elements, each with a free list threaded through the
    elements themselves. */
module Memp {
  import opened MempGraph

  /** Number of the first element of pool i: the pools lie one after another. */
  function Start(num: seq<nat>, i: nat): nat
    requires i <= |num|
  {
    if i == 0 then 0 else Start(num, i - 1) + num[i - 1]
  }

  lemma {:induction false} StartOrder(num: seq<nat>, i: nat, j: nat)
    requires i <= j <= |num|
    ensures Start(num, i) <= Start(num, j)
    decreases j
  {
    if i < j { StartOrder(num, i, j - 1); }
  }

  ghost predicate InPool(num: seq<nat>, i: nat, e: nat)
    requires i < |num|
  {
    Start(num, i) <= e < Start(num, i + 1)
  }

  lemma PoolsApart(num: seq<nat>, i: nat, j: nat, e: nat)
    requires i < |num| && j < |num| && InPool(num, i, e) && InPool(num, j, e)
    ensures i == j
  {
    if i < j { StartOrder(num, i + 1, j); }
    if j < i { StartOrder(num, j + 1, i); }
  }

  ghost predicate NoDup(l: seq<nat>) {
    forall i, j :: 0 <= i < j < |l| ==> l[i] != l[j]
  }

  /** Each element of pool i is either in its free list, once, or owned by a caller. */
  ghost predicate PoolOk(num: seq<nat>, next: seq<Ptr>, head: Ptr, l: seq<nat>, owned: set<nat>, i: nat)
    requires i < |num|
  {
    && ListOf(next, head, l) && NoDup(l)
    && (forall e: nat :: e in l ==> InPool(num, i, e))
    && (forall e: nat :: InPool(num, i, e) ==> (e in l <==> e !in owned))
  }

  /** A write to an element that is not in this pool, or is owned, does not disturb it, nor do
      changes of ownership elsewhere. */
  lemma PoolFrame(num: seq<nat>, next: seq<Ptr>, head: Ptr, l: seq<nat>, owned: set<nat>, owned1: set<nat>, i: nat,
                  e: nat, v: Ptr)
    requires i < |num| && PoolOk(num, next, head, l, owned, i) && e < |next| && e !in l
    requires forall x: nat :: InPool(num, i, x) ==> (x in owned <==> x in owned1)
    ensures PoolOk(num, next[e := v], head, l, owned1, i)
  {
    ListFrame(next, head, l, e, v);
    hide ListOf;
  }

  lemma PoolPop(num: seq<nat>, next: seq<Ptr>, head: Ptr, l: seq<nat>, owned: set<nat>, i: nat)
    requires i < |num| && PoolOk(num, next, head, l, owned, i) && head != Null
    ensures l != [] && head == El(l[0]) && l[0] < |next| && InPool(num, i, l[0]) && l[0] !in owned
    ensures PoolOk(num, next, next[l[0]], l[1..], owned + {l[0]}, i)
  {
    hide InPool;
    var r := l[1..];
    assert forall k :: 0 <= k < |r| ==> r[k] == l[k + 1];
    assert l == [l[0]] + r;
    assert l[0] !in r;
  }

  lemma PoolPush(num: seq<nat>, next: seq<Ptr>, head: Ptr, l: seq<nat>, owned: set<nat>, i: nat, e: nat)
    requires i < |num| && PoolOk(num, next, head, l, owned, i) && InPool(num, i, e) && e in owned && e < |next|
    ensures PoolOk(num, next[e := head], El(e), [e] + l, owned - {e}, i)
  {
    PushExact(next, head, l, e);
    hide InPool, ListOf;
    assert forall k :: 0 < k < |l| + 1 ==> ([e] + l)[k] == l[k - 1];
  }

  /** The free list memp_init() carves out of j elements. */
  function Carved(base: nat, j: nat): seq<nat> {
    if j == 0 then [] else [base + j - 1] + Carved(base, j - 1)
  }

  lemma {:induction false} CarvedHas(base: nat, j: nat, e: nat)
    ensures e in Carved(base, j) <==> base <= e < base + j
  {
    if j > 0 { CarvedHas(base, j - 1, e); }
  }

  lemma {:induction false} CarvedNoDup(base: nat, j: nat)
    ensures NoDup(Carved(base, j))
  {
    if j > 0 {
      CarvedNoDup(base, j - 1);
      CarvedHas(base, j - 1, base + j - 1);
      assert forall k :: 0 < k < |Carved(base, j)| ==> Carved(base, j)[k] == Carved(base, j - 1)[k - 1];
    }
  }

  function AllCarved(num: seq<nat>): (l: seq<seq<nat>>)
    ensures |l| == |num| && forall i :: 0 <= i < |num| ==> l[i] == Carved(Start(num, i), num[i])
  {
    seq(|num|, i requires 0 <= i < |num| => Carved(Start(num, i), num[i]))
  }

  lemma StartZero(num: seq<nat>)
    ensures Start(num, 0) == 0
  {
  }

  lemma ListNull(next: seq<Ptr>)
    ensures ListOf(next, Null, [])
  {
  }

  lemma Carving(num: seq<nat>, next: seq<Ptr>, head: Ptr, first: nat, i: nat, j: nat)
    requires i < |num| && first == Start(num, i) && j < num[i] && Start(num, i + 1) <= |next|
    requires ListOf(next, head, Carved(first, j))
    ensures first + j < |next| && InPool(num, i, first + j)
    ensures ListOf(next[first + j := head], El(first + j), Carved(first, j + 1))
  {
    hide ListOf;
    CarvedHas(first, j, first + j);
    PushExact(next, head, Carved(first, j), first + j);
  }

  lemma CarvedPool(num: seq<nat>, next: seq<Ptr>, head: Ptr, i: nat)
    requires i < |num| && ListOf(next, head, Carved(Start(num, i), num[i]))
    ensures PoolOk(num, next, head, Carved(Start(num, i), num[i]), {}, i)
  {
    hide ListOf;
    var l := Carved(Start(num, i), num[i]);
    CarvedNoDup(Start(num, i), num[i]);
    forall e: nat ensures e in l <==> InPool(num, i, e) { CarvedHas(Start(num, i), num[i], e); }
  }

  /** A write to an element of pool i does not disturb pool q. */
  lemma PoolApart(num: seq<nat>, next: seq<Ptr>, head: Ptr, l: seq<nat>, q: nat, i: nat, e: nat, v: Ptr)
    requires q < |num| && i < |num| && q != i && PoolOk(num, next, head, l, {}, q) && InPool(num, i, e) && e < |next|
    ensures PoolOk(num, next[e := v], head, l, {}, q)
  {
    hide ListOf, InPool;
    if e in l { PoolsApart(num, i, q, e); }
    PoolFrame(num, next, head, l, {}, {}, q, e, v);
  }

  class Pools {
    /** memp_num */
    const num: seq<nat>
    /** memp_tab, and the next pointers; an element in use holds the user's data there. */
    const tab: array<Ptr>
    const next: array<Ptr>
    /** Elements handed out and not yet freed. */
    var owned: set<nat>
    ghost var lists: seq<seq<nat>>

    ghost predicate Shape()
      reads this
    {
      tab.Length == |num| == |lists| && next.Length == Start(num, |num|) && tab != next
    }

    ghost predicate Valid()
      reads this, tab, next
    {
      Shape() && forall i :: 0 <= i < |num| ==> PoolOk(num, next[..], tab[i], lists[i], owned, i)
    }

    /** memp_init() */
    constructor (memp_num: seq<nat>)
      ensures Valid() && num == memp_num && owned == {} && fresh(tab) && fresh(next)
      ensures lists == AllCarved(num)
    {
      num := memp_num;
      tab := new Ptr[|memp_num|];
      next := new Ptr[Start(memp_num, |memp_num|)];
      owned := {};
      lists := AllCarved(memp_num);
      new;
      CarveAll();
    }

    /** Carve the memory into linked lists for each pool. */
    method CarveAll()
      requires Shape() && lists == AllCarved(num) && owned == {}
      modifies tab, next
      ensures Valid()
    {
      StartZero(num);
      hide PoolOk, AllCarved, Carved, ListOf, Start;
      var memp: nat := 0;
      for i := 0 to |num|
        invariant memp == Start(num, i)
        invariant forall q :: 0 <= q < i ==> PoolOk(num, next[..], tab[q], lists[q], {}, q)
      {
        memp := Carve(i, memp);
      }
    }

    /** Link the elements of one pool. */
    method Carve(i: nat, first: nat) returns (memp: nat)
      requires Shape() && i < |num| && first == Start(num, i) && lists[i] == Carved(first, num[i])
      requires forall q :: 0 <= q < i ==> PoolOk(num, next[..], tab[q], lists[q], {}, q)
      modifies tab, next
      ensures memp == Start(num, i + 1)
      ensures forall q :: 0 <= q <= i ==> PoolOk(num, next[..], tab[q], lists[q], {}, q)
    {
      hide PoolOk, ListOf;
      StartOrder(num, i + 1, |num|);
      tab[i] := Null;
      memp := first;
      ListNull(next[..]);
      for j := 0 to num[i]
        invariant memp == first + j && ListOf(next[..], tab[i], Carved(first, j))
        invariant forall q :: 0 <= q < i ==> PoolOk(num, next[..], tab[q], lists[q], {}, q)
      {
        Carving(num, next[..], tab[i], first, i, j);
        forall q | 0 <= q < i ensures PoolOk(num, next[..][memp := tab[i]], tab[q], lists[q], {}, q) {
          PoolApart(num, next[..], tab[q], lists[q], q, i, memp, tab[i]);
        }
        next[memp] := tab[i];
        tab[i] := El(memp);
        memp := memp + 1;
      }
      CarvedPool(num, next[..], tab[i], i);
    }

    /** memp_sanity(): terminates whatever the pointers are, and finds a circle exactly when there
        is one. */
    method MempSanity() returns (sane: bool)
      requires forall i :: 0 <= i < tab.Length ==> Closed(next[..], tab[i])
      ensures sane <==> forall i :: 0 <= i < tab.Length ==> !Loops(next[..], tab[i])
    {
      ghost var g := next[..];
      var i := 0;
      while i < tab.Length
        invariant 0 <= i <= tab.Length
        invariant forall q :: 0 <= q < i ==> !Loops(g, tab[q])
      {
        var looped := RunsInCircle(tab[i]);
        if looped { return false; }
        i := i + 1;
      }
      return true;
    }

    /** The two pointers of memp_sanity() on one list. */
    method RunsInCircle(p: Ptr) returns (looped: bool)
      requires Closed(next[..], p)
      ensures looped <==> Loops(next[..], p)
    {
      hide Loops, Closed, Walk;
      ghost var g := next[..];
      ghost var last := Meets(g, p);
      ghost var k: nat := 0;
      BothStart(g, p);
      var t := p;
      if t == Null {
        NoLoop(g, p, 0);
        return false;
      }
      var h := next[t.i];
      while t != Null && h != Null
        invariant k <= last && t == Walk(g, p, k) && h == Walk(g, p, 2 * k + 1)
        invariant forall q: nat :: q < k ==> Walk(g, p, q) != Walk(g, p, 2 * q + 1)
        invariant g == next[..]
        decreases last - k
      {
        if t == h {
          BothMet(g, p, k);
          return true;
        }
        BothStep(g, p, k);
        t := next[t.i];
        h := if next[h.i] != Null && next[next[h.i].i] != Null then next[next[h.i].i] else Null;
        k := k + 1;
      }
      NoLoop(g, p, if t == Null then k else 2 * k + 1);
      return false;
    }

    /** memp_malloc(): no element for an unknown type or an empty pool; otherwise one that nobody
        else owns. */
    method MempMalloc(typ: nat) returns (mem: Ptr)
      requires Valid()
      modifies `owned, `lists, tab
      ensures Valid()
      ensures mem == if typ >= |num| || old(lists)[typ] == [] then Null else El(old(lists)[typ][0])
      ensures mem.El? ==> InPool(num, typ, mem.i) && mem.i !in old(owned)
      ensures lists == if mem == Null then old(lists) else old(lists)[typ := old(lists)[typ][1..]]
      ensures owned == if mem == Null then old(owned) else old(owned) + {mem.i}
    {
      if typ >= |num| {
        return Null;
      }
      hide PoolOk, ListOf, InPool;
      mem := tab[typ];
      HeadOf(num, next[..], mem, lists[typ], owned, typ);
      if mem != Null {
        PoolPop(num, next[..], mem, lists[typ], owned, typ);
        forall q | 0 <= q < |num| && q != typ
          ensures PoolOk(num, next[..], tab[q], lists[q], owned + {mem.i}, q)
        {
          PoolOwn(num, next[..], tab[q], lists[q], owned, owned + {mem.i}, q, typ, mem.i);
        }
        tab[typ] := next[mem.i];
        lists := lists[typ := lists[typ][1..]];
        owned := owned + {mem.i};
      }
    }

    /** memp_free() up to its assertion: the element goes to the front of the free list. The
        assertion passes exactly when the element was not free already, and then the pools are
        sound. */
    method MempFree(typ: nat, mem: Ptr) returns (sane: bool)
      requires Valid() && typ < |num| && (mem.El? ==> InPool(num, typ, mem.i))
      modifies `owned, `lists, tab, next
      ensures mem == Null ==> sane && Valid() && lists == old(lists) && owned == old(owned)
      ensures mem.El? ==>
                && (sane <==> mem.i !in old(lists)[typ])
                && (sane ==> Valid() && owned == old(owned) - {mem.i}
                             && lists == old(lists)[typ := [mem.i] + old(lists)[typ]])
    {
      if mem == Null {
        return true;
      }
      hide PoolOk, ListOf, InPool, Closed, Loops;
      ghost var g, heads, l, o := next[..], tab[..], lists, owned;
      ElementExists(num, typ, mem.i);
      next[mem.i] := tab[typ];
      tab[typ] := mem;
      lists := lists[typ := [mem.i] + lists[typ]];
      owned := owned - {mem.i};
      assert next[..] == g[mem.i := heads[typ]];
      forall q | 0 <= q < |num|
        ensures Closed(next[..], tab[q]) && (Loops(next[..], tab[q]) <==> q == typ && mem.i in l[typ])
        ensures mem.i !in l[typ] ==> PoolOk(num, next[..], tab[q], lists[q], owned, q)
      {
        PushAll(num, g, heads, l, o, q, typ, mem.i);
      }
      sane := MempSanity();
    }

    /** The user of an element writes to it. */
    method Write(e: nat, v: Ptr)
      requires Valid() && e in owned && e < next.Length
      modifies next
      ensures Valid() && next[..] == old(next[..])[e := v]
    {
      hide ListOf, InPool;
      forall q | 0 <= q < |num| ensures PoolOk(num, next[..][e := v], tab[q], lists[q], owned, q) {
        PoolFrame(num, next[..], tab[q], lists[q], owned, owned, q, e, v);
      }
      next[e] := v;
    }
  }

  /** State of pool q after element e was put in front of the free list of pool typ. */
  ghost predicate AfterPush(num: seq<nat>, next: seq<Ptr>, heads: seq<Ptr>, lists: seq<seq<nat>>, owned: set<nat>,
                            q: nat, typ: nat, e: nat)
    requires |heads| == |lists| == |num| && q < |num| && typ < |num| && e < |next|
  {
    var next1 := next[e := heads[typ]];
    var head := if q == typ then El(e) else heads[q];
    && Closed(next1, head)
    && (Loops(next1, head) <==> q == typ && e in lists[typ])
    && (e !in lists[typ] ==>
          PoolOk(num, next1, head, if q == typ then [e] + lists[q] else lists[q], owned - {e}, q))
  }

  lemma PushAll(num: seq<nat>, next: seq<Ptr>, heads: seq<Ptr>, lists: seq<seq<nat>>, owned: set<nat>,
                q: nat, typ: nat, e: nat)
    requires |heads| == |lists| == |num| && q < |num| && typ < |num| && e < |next| && InPool(num, typ, e)
    requires PoolOk(num, next, heads[q], lists[q], owned, q)
    ensures AfterPush(num, next, heads, lists, owned, q, typ, e)
  {
    hide ListOf, InPool, Closed, Loops;
    if q == typ {
      PushExact(next, heads[q], lists[q], e);
      if e !in lists[q] { PoolPush(num, next, heads[q], lists[q], owned, q, e); }
    } else {
      if e in lists[q] || InPool(num, q, e) { PoolsApart(num, typ, q, e); }
      PoolFrame(num, next, heads[q], lists[q], owned, owned - {e}, q, e, heads[typ]);
      ListEnds(next[e := heads[typ]], heads[q], lists[q]);
    }
  }

  lemma ElementExists(num: seq<nat>, i: nat, e: nat)
    requires i < |num| && InPool(num, i, e)
    ensures e < Start(num, |num|)
  {
    StartOrder(num, i + 1, |num|);
  }

  lemma HeadOf(num: seq<nat>, next: seq<Ptr>, head: Ptr, l: seq<nat>, owned: set<nat>, i: nat)
    requires i < |num| && PoolOk(num, next, head, l, owned, i)
    ensures head == if l == [] then Null else El(l[0])
  {
  }

  lemma PoolOwn(num: seq<nat>, next: seq<Ptr>, head: Ptr, l: seq<nat>, owned: set<nat>, owned1: set<nat>,
                q: nat, i: nat, e: nat)
    requires q < |num| && i < |num| && q != i && PoolOk(num, next, head, l, owned, q) && InPool(num, i, e)
    requires owned1 == owned + {e}
    ensures PoolOk(num, next, head, l, owned1, q)
  {
    hide ListOf, InPool;
    forall x: nat | InPool(num, q, x) ensures x in owned <==> x in owned1 {
      if x == e { PoolsApart(num, q, i, e); }
    }
  }

  lemma NoLoop(next: seq<Ptr>, p: Ptr, k: nat)
    requires Walk(next, p, k) == Null
    ensures !Loops(next, p)
  {
    if Loops(next, p) { LoopsNeverEnds(next, p, k); }
  }
}