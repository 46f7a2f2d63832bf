/** The packet buffers of lwip/core/pbuf.c as a memory of linked, reference-counted records. */
module PbufGraph {
  import opened SeqNum

  datatype Ptr = Null | Pb(id: nat)

  /** struct pbuf; `data` are the len bytes at payload. */
  datatype Pbuf = Pbuf(next: Ptr, totLen: u16, ref: u16, data: seq<byte>)

  type Mem = map<nat, Pbuf>

  // ---------------------------------------------------------------- chains

  /** The pbufs l, in this order, are the chain at p. */
  ghost predicate Chain(m: Mem, p: Ptr, l: seq<nat>)
    decreases |l|
  {
    if l == [] then p == Null
    else p == Pb(l[0]) && l[0] in m && Chain(m, m[l[0]].next, l[1..])
  }

  /** Every live pbuf starts a chain that ends, over live pbufs only. */
  ghost predicate Acyclic(m: Mem) {
    forall p: nat :: p in m ==> exists l :: Chain(m, Pb(p), l)
  }

  lemma {:induction false} ChainUnique(m: Mem, p: Ptr, l: seq<nat>, k: seq<nat>)
    requires Chain(m, p, l) && Chain(m, p, k)
    ensures l == k
    decreases |l|
  {
    if l != [] { ChainUnique(m, m[l[0]].next, l[1..], k[1..]); }
  }

  lemma {:induction false} ChainTail(m: Mem, p: Ptr, l: seq<nat>, i: nat)
    requires Chain(m, p, l) && i < |l|
    ensures l[i] in m && Chain(m, Pb(l[i]), l[i..])
    ensures m[l[i]].next == if i + 1 < |l| then Pb(l[i + 1]) else Null
    decreases i
  {
    if i > 0 { ChainTail(m, m[l[0]].next, l[1..], i - 1); }
  }

  /** No pbuf comes twice in a chain. */
  lemma ChainDistinct(m: Mem, p: Ptr, l: seq<nat>, i: nat, j: nat)
    requires Chain(m, p, l) && i < j < |l|
    ensures l[i] != l[j]
  {
    ChainTail(m, p, l, i);
    ChainTail(m, p, l, j);
    if l[i] == l[j] { ChainUnique(m, Pb(l[i]), l[i..], l[j..]); }
  }

  /** The chain in a memory that agrees on its links. */
  lemma {:induction false} ChainFrame(m: Mem, n: Mem, p: Ptr, l: seq<nat>)
    requires Chain(m, p, l)
    requires forall x :: x in l ==> x in n && x in m && n[x].next == m[x].next
    ensures Chain(n, p, l)
    decreases |l|
  {
    if l != [] { ChainFrame(m, n, m[l[0]].next, l[1..]); }
  }

  // ---------------------------------------------------------------- reference counts

  /** The live pbufs whose next is p. */
  ghost function InTo(m: Mem, p: nat): set<nat> {
    set q | q in m && m[q].next == Pb(p)
  }

  /** ref is the number of next pointers to a pbuf and of handles that callers have on it. */
  ghost predicate Counted(m: Mem, handles: multiset<nat>) {
    && (forall p: nat :: p in m ==> m[p].ref == |InTo(m, p)| + handles[p] > 0)
    && (forall p: nat :: p in handles ==> p in m)
  }

  ghost predicate Sound(m: Mem, handles: multiset<nat>) { Acyclic(m) && Counted(m, handles) }

  /** No next pointer dangles. */
  lemma NoDangling(m: Mem, p: nat)
    requires Acyclic(m) && p in m && m[p].next.Pb?
    ensures m[p].next.id in m
  {
    var l :| Chain(m, Pb(p), l);
    ChainTail(m, Pb(p), l, 0);
    ChainTail(m, Pb(p), l, 1);
  }

  lemma {:induction false} Fewer(l: seq<nat>, s: set<nat>)
    requires (forall i :: 0 <= i < |l| ==> l[i] in s) && (forall i, j :: 0 <= i < j < |l| ==> l[i] != l[j])
    ensures |l| <= |s|
    decreases |l|
  {
    if l != [] {
      var t := l[..|l| - 1];
      forall i | 0 <= i < |t| ensures t[i] in s - {l[|l| - 1]} { assert t[i] == l[i]; }
      Fewer(t, s - {l[|l| - 1]});
    }
  }

  /** Nothing leaks: every live pbuf is in the chain of some pbuf on which a caller has a handle. */
  lemma {:induction false} NoLeak(m: Mem, handles: multiset<nat>, p: nat, l: seq<nat>) returns (h: nat, k: seq<nat>)
    requires Sound(m, handles) && p in m && Chain(m, Pb(p), l)
    ensures h in handles && Chain(m, Pb(h), k) && p in k
    decreases |m| - |l|
  {
    if p in handles {
      h, k := p, l;
    } else {
      assert InTo(m, p) != {};
      var q :| q in InTo(m, p);
      var r := [q] + l;
      assert r[1..] == l;
      assert Chain(m, Pb(q), r);
      forall i | 0 <= i < |r| ensures r[i] in m.Keys { ChainTail(m, Pb(q), r, i); }
      forall i, j | 0 <= i < j < |r| ensures r[i] != r[j] { ChainDistinct(m, Pb(q), r, i, j); }
      Fewer(r, m.Keys);
      h, k := NoLeak(m, handles, q, r);
      var i :| 0 <= i < |k| && k[i] == q;
      ChainTail(m, Pb(h), k, i);
      assert k[i + 1] == p;
    }
  }

  // ---------------------------------------------------------------- handles

  /** A handle on p is given up, or gained. */
  ghost function Less(handles: multiset<nat>, p: nat): multiset<nat> { handles - multiset{p} }

  ghost function More(handles: multiset<nat>, p: nat): multiset<nat> { handles + multiset{p} }

  lemma LessAt(handles: multiset<nat>, p: nat, q: nat)
    requires p in handles
    ensures Less(handles, p)[q] == handles[q] - if q == p then 1 else 0
  {
  }

  lemma MoreAt(handles: multiset<nat>, p: nat, q: nat)
    ensures More(handles, p)[q] == handles[q] + if q == p then 1 else 0
  {
  }

  /** Handles passed along cancel. */
  lemma LessMore(handles: multiset<nat>, p: nat)
    ensures Less(More(handles, p), p) == handles
  {
    assert handles + multiset{p} - multiset{p} == handles;
  }

  // ---------------------------------------------------------------- pbuf_free and pbuf_ref

  /** How many pbufs at the head of the chain l have just one reference. */
  function RunLength(m: Mem, l: seq<nat>): (n: nat)
    ensures n <= |l|
  {
    if l == [] || l[0] !in m || m[l[0]].ref != 1 then 0 else 1 + RunLength(m, l[1..])
  }

  function Elements(l: seq<nat>): set<nat> { set x | x in l }

  /** pbuf_free(): the head run is gone, and the pbuf behind it has a reference less. */
  function Released(m: Mem, l: seq<nat>): Mem {
    var n := RunLength(m, l);
    var r := m - Elements(l[..n]);
    if n < |l| && l[n] in r && r[l[n]].ref > 0 then r[l[n] := r[l[n]].(ref := r[l[n]].ref - 1)] else r
  }

  /** A change of reference counts only. */
  ghost predicate SameLinks(m: Mem, n: Mem) {
    m.Keys == n.Keys && forall p: nat :: p in m ==> n[p].next == m[p].next
  }

  lemma AcyclicFrame(m: Mem, n: Mem)
    requires Acyclic(m) && SameLinks(m, n)
    ensures Acyclic(n) && forall p: nat :: InTo(n, p) == InTo(m, p)
  {
    forall p: nat | p in n ensures exists l :: Chain(n, Pb(p), l) {
      var l :| Chain(m, Pb(p), l);
      forall x | x in l ensures x in m && x in n && n[x].next == m[x].next {
        var i :| 0 <= i < |l| && l[i] == x;
        ChainTail(m, Pb(p), l, i);
      }
      ChainFrame(m, n, Pb(p), l);
    }
  }

  /** One reference and one handle less. */
  lemma DropRef(m: Mem, handles: multiset<nat>, p: nat)
    requires Sound(m, handles) && p in handles && m[p].ref > 1
    ensures Sound(m[p := m[p].(ref := m[p].ref - 1)], Less(handles, p))
  {
    var n := m[p := m[p].(ref := m[p].ref - 1)];
    AcyclicFrame(m, n);
    HandlesLive(m, handles);
    hide Acyclic, InTo, Counted, Less;
    forall q: nat | q in m
      ensures n[q].ref - Less(handles, p)[q] == m[q].ref - handles[q] && n[q].ref > 0
    {
      LessAt(handles, p, q);
      RefAt(m, handles, q);
    }
    forall q: nat | q in Less(handles, p) ensures q in m { LessAt(handles, p, q); }
    Recount(m, n, handles, Less(handles, p));
  }

  /** One reference and one handle more. */
  lemma AddRef(m: Mem, handles: multiset<nat>, p: nat)
    requires Sound(m, handles) && p in m && m[p].ref < 0xFFFF
    ensures Sound(m[p := m[p].(ref := m[p].ref + 1)], More(handles, p))
  {
    var n := m[p := m[p].(ref := m[p].ref + 1)];
    AcyclicFrame(m, n);
    HandlesLive(m, handles);
    hide Acyclic, InTo, Counted, More;
    forall q: nat | q in m
      ensures n[q].ref - More(handles, p)[q] == m[q].ref - handles[q] && n[q].ref > 0
    {
      MoreAt(handles, p, q);
      RefAt(m, handles, q);
    }
    forall q: nat | q in More(handles, p) ensures q in m { MoreAt(handles, p, q); }
    Recount(m, n, handles, More(handles, p));
  }

  lemma HandlesLive(m: Mem, handles: multiset<nat>)
    requires Counted(m, handles)
    ensures forall p: nat :: p in handles ==> p in m
  {
  }

  lemma RefAt(m: Mem, handles: multiset<nat>, q: nat)
    requires Counted(m, handles) && q in m
    ensures m[q].ref == |InTo(m, q)| + handles[q] > 0
  {
  }

  lemma Recount(m: Mem, n: Mem, handles: multiset<nat>, h: multiset<nat>)
    requires Counted(m, handles) && n.Keys <= m.Keys && forall q: nat :: q in h ==> q in n
    requires forall q: nat :: q in n ==>
               n[q].ref - |InTo(n, q)| - h[q] == m[q].ref - |InTo(m, q)| - handles[q] && n[q].ref > 0
    ensures Counted(n, h)
  {
    hide InTo;
  }

  /** The handles once the caller's handle on p has become one on what follows p. */
  ghost function Passed(handles: multiset<nat>, p: nat, next: Ptr): multiset<nat> {
    if next.Pb? then More(Less(handles, p), next.id) else Less(handles, p)
  }

  /** The last reference to p goes, and p with it: its own reference to the next pbuf is left. */
  lemma DropLast(m: Mem, handles: multiset<nat>, p: nat)
    requires Sound(m, handles) && p in handles && m[p].ref == 1
    ensures Sound(m - {p}, Passed(handles, p, m[p].next))
    ensures InTo(m, p) == {}
  {
    assert handles[p] == 1 && |InTo(m, p)| == 0;
    forall x | x in m ensures m[x].next != Pb(p) { assert x !in InTo(m, p); }
    AcyclicWithout(m, p);
    CountedWithout(m, handles, p);
  }

  lemma CountedWithout(m: Mem, handles: multiset<nat>, p: nat)
    requires Sound(m, handles) && p in m && m[p].ref == handles[p] == 1
    requires forall x :: x in m ==> m[x].next != Pb(p)
    ensures Counted(m - {p}, Passed(handles, p, m[p].next))
  {
    if m[p].next.Pb? { NoDangling(m, p); }
    HandlesLive(m, handles);
    hide Acyclic, InTo, Passed, Counted;
    var n := m - {p};
    var h := Passed(handles, p, m[p].next);
    forall q: nat | q in n ensures n[q].ref - |InTo(n, q)| - h[q] == m[q].ref - |InTo(m, q)| - handles[q] && n[q].ref > 0 {
      InToWithout(m, p, q);
      PassedAt(handles, p, m[p].next, q);
      RefAt(m, handles, q);
    }
    forall q: nat | q in h ensures q in n {
      PassedAt(handles, p, m[p].next, q);
    }
    Recount(m, n, handles, h);
  }

  lemma PassedAt(handles: multiset<nat>, p: nat, next: Ptr, q: nat)
    requires handles[p] == 1 && next != Pb(p)
    ensures Passed(handles, p, next)[q] == if q == p then 0 else handles[q] + if next == Pb(q) then 1 else 0
  {
    hide Less, More;
    LessAt(handles, p, q);
    if next.Pb? { MoreAt(Less(handles, p), next.id, q); }
  }

  lemma InToWithout(m: Mem, p: nat, q: nat)
    requires p in m
    ensures |InTo(m - {p}, q)| == |InTo(m, q)| - if m[p].next == Pb(q) then 1 else 0
  {
    if m[p].next == Pb(q) {
      assert p in InTo(m, q) && InTo(m - {p}, q) == InTo(m, q) - {p};
    } else {
      assert InTo(m - {p}, q) == InTo(m, q);
    }
  }

  lemma AcyclicWithout(m: Mem, p: nat)
    requires Acyclic(m) && forall x :: x in m ==> m[x].next != Pb(p)
    ensures Acyclic(m - {p})
  {
    var n := m - {p};
    forall q: nat | q in n ensures exists l :: Chain(n, Pb(q), l) {
      var l :| Chain(m, Pb(q), l);
      Unreached(m, q, l, p);
      forall x | x in l ensures x in m && x in n && n[x].next == m[x].next {
        var i :| 0 <= i < |l| && l[i] == x;
        ChainTail(m, Pb(q), l, i);
      }
      ChainFrame(m, n, Pb(q), l);
    }
  }

  /** A pbuf without predecessors is in no chain but its own. */
  lemma Unreached(m: Mem, q: nat, l: seq<nat>, p: nat)
    requires Chain(m, Pb(q), l) && q != p && forall x :: x in m ==> m[x].next != Pb(p)
    ensures p !in l
  {
    if p in l {
      var i :| 0 <= i < |l| && l[i] == p;
      if i > 0 { ChainTail(m, Pb(q), l, i - 1); }
    }
  }

  lemma RunLengthFrame(m: Mem, n: Mem, l: seq<nat>)
    requires forall x :: x in l ==> (x in m <==> x in n) && (x in m ==> m[x] == n[x])
    ensures RunLength(m, l) == RunLength(n, l)
  {
  }

  /** pbuf_free() keeps the counts right and consumes the handle. */
  lemma {:induction false} FreeSound(m: Mem, handles: multiset<nat>, p: nat, l: seq<nat>)
    requires Sound(m, handles) && p in handles && Chain(m, Pb(p), l)
    ensures Sound(Released(m, l), Less(handles, p))
    decreases |l|
  {
    hide Sound;
    CountOf(m, handles, p);
    if m[p].ref == 1 {
      DropLast(m, handles, p);
      ReleasedFirst(m, p, l);
      var n := m - {p};
      if m[p].next.Pb? {
        var q := m[p].next.id;
        LessMore(Less(handles, p), q);
        TailWithout(m, p, l);
        FreeSound(n, Passed(handles, p, Pb(q)), q, l[1..]);
      } else {
        assert l[1..] == [];
        ReleasedNone(n);
        assert Passed(handles, p, Null) == Less(handles, p);
      }
    } else {
      DropRef(m, handles, p);
      ReleasedShared(m, p, l);
    }
  }

  lemma ReleasedShared(m: Mem, p: nat, l: seq<nat>)
    requires Chain(m, Pb(p), l) && m[p].ref > 1
    ensures Released(m, l) == m[p := m[p].(ref := m[p].ref - 1)]
  {
    assert Elements(l[..0]) == {} && m - {} == m;
  }

  lemma CountOf(m: Mem, handles: multiset<nat>, p: nat)
    requires Sound(m, handles) && p in handles
    ensures p in m && m[p].ref > 0
  {
  }

  lemma ReleasedNone(m: Mem)
    ensures Released(m, []) == m
  {
    assert m - {} == m;
  }

  lemma TailWithout(m: Mem, p: nat, l: seq<nat>)
    requires Chain(m, Pb(p), l)
    ensures Chain(m - {p}, m[p].next, l[1..])
  {
    forall x | x in l[1..] ensures x in m && x != p {
      var i :| 0 < i < |l| && l[i] == x;
      ChainDistinct(m, Pb(p), l, 0, i);
      ChainTail(m, Pb(p), l, i);
    }
    ChainFrame(m, m - {p}, m[p].next, l[1..]);
  }

  lemma ReleasedFirst(m: Mem, p: nat, l: seq<nat>)
    requires Chain(m, Pb(p), l) && m[p].ref == 1
    ensures RunLength(m, l) == 1 + RunLength(m - {p}, l[1..])
    ensures Released(m, l) == Released(m - {p}, l[1..])
  {
    var n, t := m - {p}, l[1..];
    forall x | x in t ensures x in m && x != p {
      var i :| 0 < i < |l| && l[i] == x;
      ChainDistinct(m, Pb(p), l, 0, i);
      ChainTail(m, Pb(p), l, i);
    }
    RunLengthFrame(m, n, t);
    var k := RunLength(n, t);
    assert l[..k + 1] == [p] + t[..k];
    assert Elements(l[..k + 1]) == {p} + Elements(t[..k]);
    assert m - Elements(l[..k + 1]) == n - Elements(t[..k]);
  }

  // ---------------------------------------------------------------- links

  function SetNext(m: Mem, x: nat, p: Ptr): Mem
    requires x in m
  {
    m[x := m[x].(next := p)]
  }

  /** A pbuf whose next is NULL is the last of any chain it is in. */
  lemma LastOf(m: Mem, p: Ptr, l: seq<nat>, x: nat)
    requires Chain(m, p, l) && x in l && x in m && m[x].next == Null
    ensures l[|l| - 1] == x && x !in l[..|l| - 1]
  {
    var i :| 0 <= i < |l| && l[i] == x;
    ChainTail(m, p, l, i);
    forall j | 0 <= j < |l| - 1 ensures l[j] != x { ChainDistinct(m, p, l, j, |l| - 1); }
  }

  /** The chain through x once the chain k is linked behind it. */
  lemma {:induction false} ChainJoin(m: Mem, p: Ptr, l: seq<nat>, x: nat, t: Ptr, k: seq<nat>)
    requires x in m && m[x].next == Null && Chain(m, p, l) && Chain(m, t, k) && x !in k
    requires l != [] && l[|l| - 1] == x && x !in l[..|l| - 1]
    ensures Chain(SetNext(m, x, t), p, l + k)
    decreases |l|
  {
    var n := SetNext(m, x, t);
    assert (l + k)[1..] == l[1..] + k;
    if |l| == 1 {
      assert l[1..] == [] && [] + k == k;
      ChainMembers(m, t, k);
      ChainFrame(m, n, t, k);
    } else {
      assert l[0] == l[..|l| - 1][0] && l[1..][..|l| - 2] == l[..|l| - 1][1..];
      ChainJoin(m, m[l[0]].next, l[1..], x, t, k);
    }
  }

  lemma ChainMembers(m: Mem, p: Ptr, l: seq<nat>)
    requires Chain(m, p, l)
    ensures forall x :: x in l ==> x in m
  {
    forall x | x in l ensures x in m {
      var i :| 0 <= i < |l| && l[i] == x;
      ChainTail(m, p, l, i);
    }
  }

  /** Linking t behind x keeps the chains ending exactly when x is not in the chain at t. */
  lemma LinkExact(m: Mem, x: nat, t: nat, k: seq<nat>)
    requires Acyclic(m) && x in m && m[x].next == Null && Chain(m, Pb(t), k)
    ensures Acyclic(SetNext(m, x, Pb(t))) <==> x !in k
  {
    var n := SetNext(m, x, Pb(t));
    if x in k {
      if Acyclic(n) {
        ChainMembers(m, Pb(t), k);
        var l :| Chain(n, Pb(t), l);
        LinkLoops(m, x, t, k, l, |l|);
      }
    } else {
      forall p: nat | p in n ensures exists l :: Chain(n, Pb(p), l) {
        var l :| Chain(m, Pb(p), l);
        ChainMembers(m, Pb(p), l);
        if x in l {
          LastOf(m, Pb(p), l, x);
          ChainJoin(m, Pb(p), l, x, Pb(t), k);
        } else {
          ChainFrame(m, n, Pb(p), l);
        }
      }
    }
  }

  /** No chain ends in the circle through x and t. */
  lemma {:induction false} LinkLoops(m: Mem, x: nat, t: nat, k: seq<nat>, l: seq<nat>, f: nat)
    requires x in m && m[x].next == Null && Chain(m, Pb(t), k) && x in k && |l| <= f
    ensures !Chain(SetNext(m, x, Pb(t)), Pb(t), l)
    decreases f
  {
    var n := SetNext(m, x, Pb(t));
    if Chain(n, Pb(t), l) {
      LastOf(m, Pb(t), k, x);
      PrefixWalk(m, n, Pb(t), k, l, x);
      ChainTail(n, Pb(t), l, |k| - 1);
      var r := l[|k|..];
      assert l[|k| - 1..][1..] == r;
      LinkLoops(m, x, t, k, r, f - 1);
    }
  }

  /** Up to x the chain is as before. */
  lemma {:induction false} PrefixWalk(m: Mem, n: Mem, p: Ptr, k: seq<nat>, l: seq<nat>, x: nat)
    requires x in m && x in n && n == SetNext(m, x, n[x].next) && Chain(m, p, k) && Chain(n, p, l)
    requires k != [] && k[|k| - 1] == x && x !in k[..|k| - 1]
    ensures |l| >= |k| && l[|k| - 1] == x
    decreases |k|
  {
    if |k| > 1 {
      assert k[0] == k[..|k| - 1][0] && k[1..][..|k| - 2] == k[..|k| - 1][1..];
      PrefixWalk(m, n, m[k[0]].next, k[1..], l[1..], x);
    }
  }

  /** One next pointer more, for a handle less. */
  lemma LinkSound(m: Mem, handles: multiset<nat>, x: nat, t: nat, k: seq<nat>)
    requires Sound(m, handles) && x in m && m[x].next == Null && t in handles && Chain(m, Pb(t), k) && x !in k
    ensures Sound(SetNext(m, x, Pb(t)), Less(handles, t))
  {
    LinkExact(m, x, t, k);
    CountedLink(m, handles, x, t);
  }

  lemma CountedLink(m: Mem, handles: multiset<nat>, x: nat, t: nat)
    requires Counted(m, handles) && x in m && m[x].next == Null && t in handles
    ensures Counted(SetNext(m, x, Pb(t)), Less(handles, t))
  {
    HandlesLive(m, handles);
    hide InTo, Counted, Less;
    var n, h := SetNext(m, x, Pb(t)), Less(handles, t);
    forall q: nat | q in m ensures |InTo(n, q)| + h[q] == |InTo(m, q)| + handles[q] && n[q].ref == m[q].ref > 0 {
      InToLink(m, x, t, q);
      LessAt(handles, t, q);
      RefAt(m, handles, q);
    }
    forall q: nat | q in h ensures q in n { LessAt(handles, t, q); }
    hide SetNext;
    Recount(m, n, handles, h);
  }

  lemma InToLink(m: Mem, x: nat, t: nat, q: nat)
    requires x in m && m[x].next == Null
    ensures |InTo(SetNext(m, x, Pb(t)), q)| == |InTo(m, q)| + if q == t then 1 else 0
  {
    var n := SetNext(m, x, Pb(t));
    if q == t {
      assert x !in InTo(m, q) && InTo(n, q) == InTo(m, q) + {x};
    } else {
      assert InTo(n, q) == InTo(m, q);
    }
  }

  lemma InToUnlink(m: Mem, x: nat, q: nat)
    requires x in m
    ensures |InTo(SetNext(m, x, Null), q)| == |InTo(m, q)| - if m[x].next == Pb(q) then 1 else 0
  {
    var n := SetNext(m, x, Null);
    if m[x].next == Pb(q) {
      assert x in InTo(m, q) && InTo(n, q) == InTo(m, q) - {x};
    } else {
      assert InTo(n, q) == InTo(m, q);
    }
  }

  /** One next pointer less, for a handle more. */
  lemma UnlinkSound(m: Mem, handles: multiset<nat>, x: nat)
    requires Sound(m, handles) && x in m && m[x].next.Pb?
    ensures Sound(SetNext(m, x, Null), More(handles, m[x].next.id))
  {
    var q := m[x].next.id;
    NoDangling(m, x);
    AcyclicUnlink(m, x);
    CountedUnlink(m, handles, x);
  }

  lemma CountedUnlink(m: Mem, handles: multiset<nat>, x: nat)
    requires Counted(m, handles) && x in m && m[x].next.Pb? && m[x].next.id in m
    ensures Counted(SetNext(m, x, Null), More(handles, m[x].next.id))
  {
    HandlesLive(m, handles);
    hide InTo, Counted, More;
    var q := m[x].next.id;
    var n, h := SetNext(m, x, Null), More(handles, q);
    forall y: nat | y in m ensures |InTo(n, y)| + h[y] == |InTo(m, y)| + handles[y] && n[y].ref == m[y].ref > 0 {
      InToUnlink(m, x, y);
      MoreAt(handles, q, y);
      RefAt(m, handles, y);
    }
    forall y: nat | y in h ensures y in n { MoreAt(handles, q, y); }
    hide SetNext;
    Recount(m, n, handles, h);
  }

  lemma AcyclicUnlink(m: Mem, x: nat)
    requires Acyclic(m) && x in m
    ensures Acyclic(SetNext(m, x, Null))
  {
    var n := SetNext(m, x, Null);
    forall p: nat | p in n ensures exists l :: Chain(n, Pb(p), l) {
      var l :| Chain(m, Pb(p), l);
      ChainMembers(m, Pb(p), l);
      if x in l {
        var i :| 0 <= i < |l| && l[i] == x;
        ChainCut(m, Pb(p), l, i);
      } else {
        ChainFrame(m, n, Pb(p), l);
      }
    }
  }

  lemma {:induction false} ChainCut(m: Mem, p: Ptr, l: seq<nat>, i: nat)
    requires Chain(m, p, l) && i < |l|
    ensures l[i] in m && Chain(SetNext(m, l[i], Null), p, l[..i + 1])
    decreases i
  {
    ChainTail(m, p, l, i);
    if i == 0 {
      assert l[..1][1..] == [];
    } else {
      ChainDistinct(m, p, l, 0, i);
      ChainCut(m, m[l[0]].next, l[1..], i - 1);
      assert l[..i + 1][1..] == l[1..][..i];
    }
  }

  /** A new pbuf, held by its allocator. */
  lemma NewSound(m: Mem, handles: multiset<nat>, x: nat, b: Pbuf)
    requires Sound(m, handles) && x !in m && b.next == Null && b.ref == 1
    ensures Sound(m[x := b], More(handles, x))
  {
    forall p: nat | p in m ensures m[p].next != Pb(x) { if m[p].next.Pb? { NoDangling(m, p); } }
    AcyclicNew(m, x, b);
    CountedNew(m, handles, x, b);
  }

  lemma InToNew(m: Mem, x: nat, b: Pbuf, q: nat)
    requires x !in m && b.next == Null && forall p: nat :: p in m ==> m[p].next != Pb(x)
    ensures InTo(m[x := b], q) == InTo(m, q) && (q == x ==> InTo(m, q) == {})
  {
  }

  lemma CountedNew(m: Mem, handles: multiset<nat>, x: nat, b: Pbuf)
    requires Counted(m, handles) && x !in m && b.next == Null && b.ref == 1
    requires forall p: nat :: p in m ==> m[p].next != Pb(x)
    ensures Counted(m[x := b], More(handles, x))
  {
    var n := m[x := b];
    assert x !in handles;
    hide InTo, More;
    forall q: nat | q in n ensures n[q].ref == |InTo(n, q)| + More(handles, x)[q] > 0 {
      InToNew(m, x, b, q);
      MoreAt(handles, x, q);
    }
    forall q: nat | q in More(handles, x) ensures q in n { MoreAt(handles, x, q); }
  }

  lemma AcyclicNew(m: Mem, x: nat, b: Pbuf)
    requires Acyclic(m) && x !in m && b.next == Null
    ensures Acyclic(m[x := b])
  {
    var n := m[x := b];
    forall p: nat | p in n ensures exists l :: Chain(n, Pb(p), l) {
      if p == x {
        assert [x][1..] == [];
        assert Chain(n, Pb(x), [x]);
      } else {
        var l :| Chain(m, Pb(p), l);
        ChainMembers(m, Pb(p), l);
        ChainFrame(m, n, Pb(p), l);
      }
    }
  }

  /** Changes of lengths and data only. */
  ghost predicate SameRefs(m: Mem, n: Mem) {
    SameLinks(m, n) && forall p: nat :: p in m ==> n[p].ref == m[p].ref
  }

  lemma DataSound(m: Mem, n: Mem, handles: multiset<nat>)
    requires Sound(m, handles) && SameRefs(m, n)
    ensures Sound(n, handles)
  {
    AcyclicFrame(m, n);
    hide Acyclic, InTo;
  }
}
