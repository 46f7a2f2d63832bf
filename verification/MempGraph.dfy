/** The free lists of lwip/core/memp.c as a graph: every element of the pools has one next pointer. */
module MempGraph {
  datatype Ptr = Null | El(i: nat)

  /** One step along the next pointers; nothing follows NULL. */
  function Step(next: seq<Ptr>, p: Ptr): Ptr {
    if p.El? && p.i < |next| then next[p.i] else Null
  }

  function Walk(next: seq<Ptr>, p: Ptr, k: nat): Ptr {
    if k == 0 then p else Step(next, Walk(next, p, k - 1))
  }

  /** Every pointer on the way from p is NULL or an element of the pools. */
  ghost predicate Closed(next: seq<Ptr>, p: Ptr) {
    forall k: nat :: Walk(next, p, k).El? ==> Walk(next, p, k).i < |next|
  }

  /** The list at p runs into a circle: it comes to some element a second time. */
  ghost predicate Loops(next: seq<Ptr>, p: Ptr) {
    exists i: nat, j: nat :: i < j && Walk(next, p, i) == Walk(next, p, j) != Null
  }

  // ---------------------------------------------------------------- walks

  lemma {:induction false} WalkOn(next: seq<Ptr>, p: Ptr, i: nat, k: nat)
    ensures Walk(next, p, i + k) == Walk(next, Walk(next, p, i), k)
    decreases k
  {
    if k > 0 { WalkOn(next, p, i, k - 1); }
  }

  lemma {:induction false} WalkNull(next: seq<Ptr>, p: Ptr, i: nat, k: nat)
    requires Walk(next, p, i) == Null
    ensures Walk(next, p, i + k) == Null
    decreases k
  {
    if k > 0 { WalkNull(next, p, i, k - 1); }
  }

  /** Past a repetition the walk repeats with the same period, any number of times. */
  lemma {:induction false} WalkPeriod(next: seq<Ptr>, p: Ptr, i: nat, j: nat, k: nat)
    requires i <= j && Walk(next, p, i) == Walk(next, p, j)
    ensures Walk(next, p, i + k) == Walk(next, p, j + k)
  {
    WalkOn(next, p, i, k);
    WalkOn(next, p, j, k);
  }

  lemma {:induction false} WalkPeriods(next: seq<Ptr>, p: Ptr, i: nat, d: nat, n: nat)
    requires Walk(next, p, i) == Walk(next, p, i + d)
    ensures Walk(next, p, i) == Walk(next, p, i + n * d)
    decreases n
  {
    if n > 0 {
      WalkPeriods(next, p, i, d, n - 1);
      WalkPeriod(next, p, i, i + (n - 1) * d, d);
      assert i + (n - 1) * d + d == i + n * d;
    }
  }

  lemma {:induction false} LoopsNeverEnds(next: seq<Ptr>, p: Ptr, k: nat)
    requires Loops(next, p)
    ensures Walk(next, p, k) != Null
  {
    var i: nat, j: nat :| i < j && Walk(next, p, i) == Walk(next, p, j) != Null;
    if Walk(next, p, k) == Null {
      var d := j - i;
      WalkPeriods(next, p, i, d, k);
      assert i + k * d >= k by { Grows(k, d); }
      WalkNull(next, p, k, i + k * d - k);
    }
  }

  lemma Grows(k: nat, d: nat)
    requires d > 0
    ensures k * d >= k
  {
  }

  /** The numbers below n. */
  ghost function Below(n: nat): (s: set<nat>)
    ensures |s| == n && forall x: nat :: x in s <==> x < n
  {
    if n == 0 then {} else Below(n - 1) + {n - 1}
  }

  /** The elements met in the first n steps. */
  ghost function Met(next: seq<Ptr>, p: Ptr, n: nat): set<nat> {
    if n == 0 then {}
    else
      var w := Walk(next, p, n - 1);
      if w.El? then Met(next, p, n - 1) + {w.i} else Met(next, p, n - 1)
  }

  lemma {:induction false} MetWhen(next: seq<Ptr>, p: Ptr, n: nat, x: nat)
    requires x in Met(next, p, n)
    ensures exists k: nat :: k < n && Walk(next, p, k) == El(x)
    decreases n
  {
    if Walk(next, p, n - 1) != El(x) { MetWhen(next, p, n - 1, x); }
  }

  lemma {:induction false} MetDistinct(next: seq<Ptr>, p: Ptr, n: nat)
    requires forall k: nat :: k < n ==> Walk(next, p, k) != Null
    requires forall i: nat, j: nat :: i < j < n ==> Walk(next, p, i) != Walk(next, p, j)
    ensures |Met(next, p, n)| == n
  {
    hide Walk;
    if n > 0 {
      MetDistinct(next, p, n - 1);
      var x := Walk(next, p, n - 1).i;
      if x in Met(next, p, n - 1) { MetWhen(next, p, n - 1, x); }
    }
  }

  lemma SmallerSet(a: set<nat>, b: set<nat>)
    requires a <= b
    ensures |a| <= |b|
    decreases a
  {
    if a != {} {
      var x :| x in a;
      SmallerSet(a - {x}, b - {x});
    }
  }

  /** A walk that does not end within as many steps as there are elements meets one twice. */
  lemma Repeats(next: seq<Ptr>, p: Ptr) returns (i: nat, j: nat)
    requires Closed(next, p) && forall k: nat :: k <= |next| ==> Walk(next, p, k) != Null
    ensures i < j <= |next| && Walk(next, p, i) == Walk(next, p, j)
  {
    var n := |next| + 1;
    if forall i: nat, j: nat :: i < j < n ==> Walk(next, p, i) != Walk(next, p, j) {
      MetDistinct(next, p, n);
      forall x: nat | x in Met(next, p, n) ensures x in Below(|next|) { MetWhen(next, p, n, x); }
      SmallerSet(Met(next, p, n), Below(|next|));
      assert false;
    }
    i, j :| i < j < n && Walk(next, p, i) == Walk(next, p, j);
  }

  /** Where the tortoise, after k steps, and the hare, after 2k + 1, decide: within as many rounds
      as there are elements the hare is at the end or both are at one element. */
  lemma Meets(next: seq<Ptr>, p: Ptr) returns (k: nat)
    requires Closed(next, p)
    ensures k <= |next|
    ensures Walk(next, p, 2 * k + 1) == Null || Walk(next, p, k) == Walk(next, p, 2 * k + 1)
  {
    if m: nat :| m <= |next| && Walk(next, p, m) == Null {
      k := m;
      WalkNull(next, p, m, m + 1);
    } else {
      var i, j := Repeats(next, p);
      var d := j - i;
      // the first k >= i for which the period divides k + 1
      var n := (i + d) / d;
      DivideUp(i, d, n);
      k := n * d - 1;
      WalkPeriod(next, p, i, j, 0);
      MultipleApart(next, p, i, d, k, n);
    }
  }

  ghost predicate Ends(next: seq<Ptr>, p: Ptr) {
    exists k: nat :: Walk(next, p, k) == Null
  }

  /** A list runs into a circle exactly when it never ends. */
  lemma LoopsExact(next: seq<Ptr>, p: Ptr)
    requires Closed(next, p)
    ensures Loops(next, p) <==> !Ends(next, p)
  {
    if Ends(next, p) {
      var k: nat :| Walk(next, p, k) == Null;
      if Loops(next, p) { LoopsNeverEnds(next, p, k); }
    } else {
      assert forall k: nat :: Walk(next, p, k) != Null;
      var i, j := Repeats(next, p);
      assert Walk(next, p, i) == Walk(next, p, j) != Null;
    }
  }

  lemma DivideUp(i: nat, d: nat, n: nat)
    requires d > 0 && n == (i + d) / d
    ensures i < n * d <= i + d
  {
    assert n * d + (i + d) % d == i + d;
  }

  lemma MultipleApart(next: seq<Ptr>, p: Ptr, i: nat, d: nat, k: nat, n: nat)
    requires Walk(next, p, i) == Walk(next, p, i + d) && k + 1 == n * d && i <= k
    ensures Walk(next, p, k) == Walk(next, p, 2 * k + 1)
  {
    WalkPeriods(next, p, i, d, n);
    WalkPeriod(next, p, i, i + n * d, k - i);
  }

  /** The steps of both pointers. */
  lemma BothStep(next: seq<Ptr>, p: Ptr, k: nat)
    requires Closed(next, p)
    ensures Walk(next, p, k + 1) == Step(next, Walk(next, p, k))
    ensures Walk(next, p, 2 * k + 2) == Step(next, Walk(next, p, 2 * k + 1))
    ensures Walk(next, p, 2 * k + 3) == Step(next, Walk(next, p, 2 * k + 2))
    ensures forall i :: i == k || 2 * k + 1 <= i <= 2 * k + 2 ==>
              var w := Walk(next, p, i); w.El? ==> w.i < |next|
  {
  }

  lemma BothStart(next: seq<Ptr>, p: Ptr)
    requires Closed(next, p)
    ensures Walk(next, p, 0) == p && Walk(next, p, 1) == Step(next, p)
    ensures p.El? ==> p.i < |next|
  {
    assert Walk(next, p, 1) == Step(next, Walk(next, p, 0));
  }

  /** The pointers have met. */
  lemma BothMet(next: seq<Ptr>, p: Ptr, k: nat)
    requires Walk(next, p, k) == Walk(next, p, 2 * k + 1) != Null
    ensures Loops(next, p)
  {
  }

  // ---------------------------------------------------------------- lists

  /** The elements `l` in this order are the list at p. */
  ghost predicate ListOf(next: seq<Ptr>, p: Ptr, l: seq<nat>)
    decreases |l|
  {
    if l == [] then p == Null
    else p == El(l[0]) && l[0] < |next| && ListOf(next, next[l[0]], l[1..])
  }

  lemma {:induction false} ListWalk(next: seq<Ptr>, p: Ptr, l: seq<nat>, k: nat)
    requires ListOf(next, p, l)
    ensures Walk(next, p, k) == if k < |l| then El(l[k]) else Null
    ensures k < |l| ==> l[k] < |next|
    decreases |l|
  {
    if k > 0 {
      if l == [] {
        WalkNull(next, p, 0, k);
      } else {
        WalkOn(next, p, 1, k - 1);
        assert Walk(next, p, 1) == Step(next, Walk(next, p, 0)) == next[l[0]];
        ListWalk(next, next[l[0]], l[1..], k - 1);
      }
    }
  }

  /** A list is closed and runs into no circle. */
  lemma ListEnds(next: seq<Ptr>, p: Ptr, l: seq<nat>)
    requires ListOf(next, p, l)
    ensures Closed(next, p) && !Loops(next, p)
  {
    forall k: nat ensures Walk(next, p, k).El? ==> Walk(next, p, k).i < |next| { ListWalk(next, p, l, k); }
    if Loops(next, p) {
      ListWalk(next, p, l, |l|);
      LoopsNeverEnds(next, p, |l|);
    }
  }

  /** A next pointer outside the list may hold anything. */
  lemma {:induction false} ListFrame(next: seq<Ptr>, p: Ptr, l: seq<nat>, e: nat, v: Ptr)
    requires ListOf(next, p, l) && e < |next| && e !in l
    ensures ListOf(next[e := v], p, l)
    decreases |l|
  {
    if l != [] { ListFrame(next, next[l[0]], l[1..], e, v); }
  }

  /** The first place of e in the list. */
  lemma {:induction false} PushWalk(next: seq<Ptr>, p: Ptr, l: seq<nat>, e: nat, k: nat)
    requires ListOf(next, p, l) && e < |next| && k < |l| && forall j :: 0 <= j < k ==> l[j] != e
    ensures Walk(next[e := p], El(e), k + 1) == El(l[k]) && l[k] < |next|
    decreases k
  {
    var m := next[e := p];
    ListWalk(next, p, l, k);
    if k > 0 {
      PushWalk(next, p, l, e, k - 1);
      ListWalk(next, p, l, k - 1);
      assert Walk(m, El(e), k + 1) == m[l[k - 1]] == next[l[k - 1]] == Walk(next, p, k);
    } else {
      assert Walk(m, El(e), 1) == Step(m, Walk(m, El(e), 0)) == p;
      assert Walk(next, p, 0) == p;
    }
  }

  lemma {:induction false} PushCircle(next: seq<Ptr>, p: Ptr, l: seq<nat>, e: nat, k: nat, n: nat)
    requires ListOf(next, p, l) && e < |next| && k < |l| && l[k] == e && forall j :: 0 <= j < k ==> l[j] != e
    ensures Walk(next[e := p], El(e), n).El? && Walk(next[e := p], El(e), n).i < |next|
    decreases n
  {
    var m := next[e := p];
    if n == 0 {
    } else if n <= k + 1 {
      PushWalk(next, p, l, e, n - 1);
    } else {
      PushWalk(next, p, l, e, k);
      assert Walk(m, El(e), 0) == Walk(m, El(e), k + 1);
      WalkPeriod(m, El(e), 0, k + 1, n - (k + 1));
      PushCircle(next, p, l, e, k, n - (k + 1));
    }
  }

  /** Putting an element in front of a list gives a list when it is not in it, and a circle when it
      is: a double free. */
  lemma PushExact(next: seq<Ptr>, p: Ptr, l: seq<nat>, e: nat)
    requires ListOf(next, p, l) && e < |next|
    ensures e !in l ==> ListOf(next[e := p], El(e), [e] + l)
    ensures Closed(next[e := p], El(e))
    ensures Loops(next[e := p], El(e)) <==> e in l
  {
    if e in l {
      PushTwice(next, p, l, e);
    } else {
      ListFrame(next, p, l, e, p);
      assert ([e] + l)[1..] == l;
      assert ListOf(next[e := p], El(e), [e] + l);
      ListEnds(next[e := p], El(e), [e] + l);
    }
  }

  lemma PushTwice(next: seq<Ptr>, p: Ptr, l: seq<nat>, e: nat)
    requires ListOf(next, p, l) && e < |next| && e in l
    ensures Closed(next[e := p], El(e)) && Loops(next[e := p], El(e))
  {
    hide ListOf, Walk;
    var m := next[e := p];
    var k := First(l, e);
    PushCircle(next, p, l, e, k, 0);
    PushWalk(next, p, l, e, k);
    forall n: nat ensures Walk(m, El(e), n).El? ==> Walk(m, El(e), n).i < |m| {
      PushCircle(next, p, l, e, k, n);
    }
    assert Walk(m, El(e), 0) == Walk(m, El(e), k + 1) by { WalkZero(m, El(e)); }
  }

  lemma WalkZero(next: seq<Ptr>, p: Ptr)
    ensures Walk(next, p, 0) == p
  {
  }

  function First(l: seq<nat>, e: nat): (k: nat)
    requires e in l
    ensures k < |l| && l[k] == e && forall j :: 0 <= j < k ==> l[j] != e
  {
    if l[0] == e then 0 else 1 + First(l[1..], e)
  }
}
