/** What the chains of lwip/core/pbuf.c hold: their bytes, and the cached total lengths. */
module PbufData {
  import opened SeqNum
  import opened PbufGraph

  /** Bytes of the chain l. */
  function Flat(m: Mem, l: seq<nat>): seq<byte> {
    if l == [] then [] else (if l[0] in m then m[l[0]].data else []) + Flat(m, l[1..])
  }

  function Total(m: Mem, l: seq<nat>): nat { |Flat(m, l)| }

  /** Every tot_len in the chain is the number of bytes from there on. */
  ghost predicate TotOk(m: Mem, l: seq<nat>) {
    forall i :: 0 <= i < |l| ==> l[i] in m && m[l[i]].totLen == Total(m, l[i..])
  }

  lemma {:induction false} FlatSplit(m: Mem, l: seq<nat>, i: nat)
    requires i <= |l|
    ensures Flat(m, l) == Flat(m, l[..i]) + Flat(m, l[i..])
    decreases i
  {
    if i == 0 {
      assert l[..0] == [] && l[0..] == l;
    } else {
      FlatSplit(m, l[1..], i - 1);
      assert l[..i][1..] == l[1..][..i - 1] && l[i..] == l[1..][i - 1..];
    }
  }

  lemma FlatJoin(m: Mem, l: seq<nat>, k: seq<nat>)
    ensures Flat(m, l + k) == Flat(m, l) + Flat(m, k)
  {
    FlatSplit(m, l + k, |l|);
    assert (l + k)[..|l|] == l && (l + k)[|l|..] == k;
  }

  lemma {:induction false} FlatFrame(m: Mem, n: Mem, l: seq<nat>)
    requires forall x :: x in l ==> (x in m <==> x in n) && (x in m ==> n[x].data == m[x].data)
    ensures Flat(n, l) == Flat(m, l)
    decreases |l|
  {
    if l != [] { FlatFrame(m, n, l[1..]); }
  }

  /** A chain none of whose pbufs changed length, data or total. */
  lemma TotFrame(m: Mem, n: Mem, l: seq<nat>)
    requires TotOk(m, l)
    requires forall x :: x in l ==> x in n && x in m && n[x].data == m[x].data && n[x].totLen == m[x].totLen
    ensures TotOk(n, l) && Flat(n, l) == Flat(m, l)
  {
    forall i | 0 <= i < |l| ensures l[i] in n && n[l[i]].totLen == Total(n, l[i..]) {
      FlatFrame(m, n, l[i..]);
    }
    FlatFrame(m, n, l);
  }

  lemma TotTail(m: Mem, l: seq<nat>, i: nat)
    requires TotOk(m, l) && i <= |l|
    ensures TotOk(m, l[i..])
  {
    forall j | 0 <= j < |l[i..]| ensures l[i..][j] in m && m[l[i..][j]].totLen == Total(m, l[i..][j..]) {
      assert l[i..][j..] == l[i + j..];
    }
  }

  // ---------------------------------------------------------------- pbuf_cat

  /** Add d, in 16 bits, to the totals of the pbufs l. */
  function AddTot(m: Mem, l: seq<nat>, d: int): Mem {
    map x | x in m :: if x in l then m[x].(totLen := Low16(m[x].totLen + d)) else m[x]
  }

  /** pbuf_cat() of the chain l and the chain at t. */
  function Cat(m: Mem, l: seq<nat>, t: nat): Mem
    requires l != [] && l[|l| - 1] in m && t in m
  {
    SetNext(AddTot(m, l, m[t].totLen), l[|l| - 1], Pb(t))
  }

  lemma AddTotSame(m: Mem, l: seq<nat>, d: int)
    ensures SameRefs(m, AddTot(m, l, d))
    ensures forall x :: x in m ==> AddTot(m, l, d)[x].data == m[x].data
  {
  }

  /** Concatenation, as a change of the whole memory: all counts stay right when the caller's handle
      on t is taken over. */
  lemma CatSound(m: Mem, handles: multiset<nat>, h: nat, l: seq<nat>, t: nat, k: seq<nat>)
    requires Sound(m, handles) && t in handles && Chain(m, Pb(h), l) && Chain(m, Pb(t), k)
    requires forall x :: x in l ==> x !in k
    ensures l != [] && l[|l| - 1] in m && t in m
    ensures Sound(Cat(m, l, t), Less(handles, t))
    ensures Chain(Cat(m, l, t), Pb(h), l + k)
  {
    ChainTail(m, Pb(h), l, |l| - 1);
    ChainTail(m, Pb(t), k, 0);
    ChainMembers(m, Pb(h), l);
    ChainMembers(m, Pb(t), k);
    hide Sound, Acyclic;
    var x := l[|l| - 1];
    var n := AddTot(m, l, m[t].totLen);
    AddTotSame(m, l, m[t].totLen);
    DataSound(m, n, handles);
    ChainFrame(m, n, Pb(h), l);
    ChainFrame(m, n, Pb(t), k);
    LinkSound(n, handles, x, t, k);
    LastOf(n, Pb(h), l, x);
    ChainJoin(n, Pb(h), l, x, Pb(t), k);
  }

  /** The bytes from place i of the concatenation on. */
  lemma CatFrom(m: Mem, n: Mem, l: seq<nat>, k: seq<nat>, i: nat)
    requires i <= |l| + |k| && n.Keys == m.Keys && forall x :: x in m ==> n[x].data == m[x].data
    ensures Flat(n, (l + k)[i..]) == if i < |l| then Flat(m, l[i..]) + Flat(m, k) else Flat(m, k[i - |l|..])
  {
    FlatFrame(m, n, (l + k)[i..]);
    if i < |l| {
      assert (l + k)[i..] == l[i..] + k;
      FlatJoin(m, l[i..], k);
    } else {
      assert (l + k)[i..] == k[i - |l|..];
    }
  }

  /** Concatenation concatenates the bytes, and the totals are right exactly when the new length
      fits 16 bits. */
  lemma CatData(m: Mem, h: nat, l: seq<nat>, t: nat, k: seq<nat>)
    requires Chain(m, Pb(h), l) && Chain(m, Pb(t), k) && l[|l| - 1] in m && t in m
    requires TotOk(m, l) && TotOk(m, k) && forall x :: x in l ==> x !in k
    ensures Flat(Cat(m, l, t), l + k) == Flat(m, l) + Flat(m, k)
    ensures TotOk(Cat(m, l, t), l + k) <==> Total(m, l) + Total(m, k) < 0x1_0000
  {
    ChainMembers(m, Pb(h), l);
    ChainMembers(m, Pb(t), k);
    CatTotals(m, l, t, k);
    hide Cat, Flat, Chain, TotOk, Low16;
    var n := Cat(m, l, t);
    CatFrom(m, n, l, k, 0);
    assert l[0..] == l && (l + k)[0..] == l + k;
    if Total(m, l) + Total(m, k) < 0x1_0000 {
      CatFits(m, n, l, k);
    } else {
      CatWraps(m, n, l, k);
    }
  }

  lemma CatFits(m: Mem, n: Mem, l: seq<nat>, k: seq<nat>)
    requires l != [] && n.Keys == m.Keys && (forall x :: x in m ==> n[x].data == m[x].data)
    requires TotOk(m, l) && TotOk(m, k) && Total(m, l) + Total(m, k) < 0x1_0000
    requires forall i :: 0 <= i < |l| ==> n[l[i]].totLen == Low16(Total(m, l[i..]) + Total(m, k))
    requires forall i :: 0 <= i < |k| ==> n[k[i]].totLen == Total(m, k[i..])
    ensures TotOk(n, l + k)
  {
    hide Flat, Low16;
    forall i | 0 <= i < |l + k| ensures (l + k)[i] in n && n[(l + k)[i]].totLen == Total(n, (l + k)[i..]) {
      CatFrom(m, n, l, k, i);
      if i < |l| {
        FlatSplit(m, l, i);
        Low16Small(Total(m, l[i..]) + Total(m, k));
      }
    }
  }

  lemma CatWraps(m: Mem, n: Mem, l: seq<nat>, k: seq<nat>)
    requires l != [] && n.Keys == m.Keys && (forall x :: x in m ==> n[x].data == m[x].data)
    requires Total(m, l) + Total(m, k) >= 0x1_0000
    ensures !TotOk(n, l + k)
  {
    hide Flat;
    CatFrom(m, n, l, k, 0);
    assert l[0..] == l && (l + k)[0..] == l + k;
  }

  lemma CatTotals(m: Mem, l: seq<nat>, t: nat, k: seq<nat>)
    requires l != [] && l[|l| - 1] in m && t in m && k != [] && k[0] == t
    requires TotOk(m, l) && TotOk(m, k) && forall x :: x in l ==> x !in k
    ensures var n := Cat(m, l, t);
            && n.Keys == m.Keys
            && (forall x :: x in m ==> n[x].data == m[x].data)
            && (forall i :: 0 <= i < |l| ==> n[l[i]].totLen == Low16(Total(m, l[i..]) + Total(m, k)))
            && (forall i :: 0 <= i < |k| ==> n[k[i]].totLen == Total(m, k[i..]))
  {
    hide Flat;
    assert k[0..] == k;
    forall i | 0 <= i < |k| ensures k[i] !in l { }
  }

  // ---------------------------------------------------------------- cutting a chain

  /** Freeing a chain leaves all else alone. */
  lemma ReleasedKeeps(m: Mem, l: seq<nat>, x: nat)
    requires x in m && x !in l
    ensures x in Released(m, l) && Released(m, l)[x] == m[x]
  {
  }

  /** Whether the link to a chain is cut before or after it is freed makes no difference. */
  lemma ReleasedCut(m: Mem, l: seq<nat>, x: nat)
    requires x in m && x !in l
    ensures x in Released(m, l) && Released(SetNext(m, x, Null), l) == SetNext(Released(m, l), x, Null)
  {
    var n := SetNext(m, x, Null);
    RunLengthFrame(m, n, l);
    ReleasedKeeps(m, l, x);
    var k := RunLength(m, l);
    assert forall y :: y in l[..k] ==> y in l;
    assert n - Elements(l[..k]) == SetNext(m - Elements(l[..k]), x, Null);
  }

  /** What is left of the links of a chain cut behind its pbuf number i: the caller's handles are as
      before, and the tail has been freed once. */
  lemma CutSound(m: Mem, handles: multiset<nat>, p: nat, l: seq<nat>, i: nat)
    requires Sound(m, handles) && Chain(m, Pb(p), l) && i < |l|
    ensures l[i] in m && l[i] in Released(m, l[i + 1..])
    ensures Sound(SetNext(Released(m, l[i + 1..]), l[i], Null), handles)
  {
    hide Chain, Released, Counted;
    var x, r := l[i], l[i + 1..];
    FlatFirst(m, Pb(p), l, i);
    BehindDistinct(m, p, l, i);
    hide Sound, Acyclic;
    ReleasedCut(m, r, x);
    if i + 1 < |l| {
      var q := l[i + 1];
      ChainTail(m, Pb(p), l, i + 1);
      UnlinkSound(m, handles, x);
      var n := SetNext(m, x, Null);
      FrameBehind(m, Pb(q), r, x);
      MoreAt(handles, q, q);
      FreeSound(n, More(handles, q), q, r);
      LessMore(handles, q);
    } else {
      assert r == [];
      ReleasedNone(m);
      assert SetNext(m, x, Null) == m;
    }
  }

  lemma FrameBehind(m: Mem, p: Ptr, r: seq<nat>, x: nat)
    requires Chain(m, p, r) && x in m && x !in r
    ensures Chain(SetNext(m, x, Null), p, r)
  {
    ChainMembers(m, p, r);
    ChainFrame(m, SetNext(m, x, Null), p, r);
  }

  /** The rest of a chain, behind pbuf i, is a chain without it. */
  lemma Behind(m: Mem, p: nat, l: seq<nat>, i: nat)
    requires Chain(m, Pb(p), l) && i < |l|
    ensures l[i] in m && Chain(m, m[l[i]].next, l[i + 1..]) && l[i] !in l[i + 1..]
    ensures m[l[i]].next == Null ==> l[i + 1..] == []
  {
    ChainTail(m, Pb(p), l, i);
    assert l[i..][1..] == l[i + 1..];
    BehindDistinct(m, p, l, i);
  }

  lemma BehindDistinct(m: Mem, p: nat, l: seq<nat>, i: nat)
    requires Chain(m, Pb(p), l) && i < |l|
    ensures forall j :: 0 <= j <= i ==> l[j] !in l[i + 1..]
  {
    forall j | 0 <= j <= i ensures l[j] !in l[i + 1..] {
      if l[j] in l[i + 1..] {
        var k :| 0 <= k < |l[i + 1..]| && l[i + 1..][k] == l[j];
        ChainDistinct(m, Pb(p), l, j, i + 1 + k);
      }
    }
  }

  // ---------------------------------------------------------------- pbuf_realloc

  /** How many pbufs of the chain pbuf_realloc() steps over. */
  function CutAt(m: Mem, l: seq<nat>, rem: nat): (i: nat)
    requires l != []
    ensures i < |l|
  {
    if |l| == 1 || l[0] !in m || rem <= |m[l[0]].data| then 0 else 1 + CutAt(m, l[1..], rem - |m[l[0]].data|)
  }

  lemma {:induction false} CutAtExact(m: Mem, l: seq<nat>, rem: nat)
    requires l != [] && rem <= Total(m, l) && forall x :: x in l ==> x in m
    ensures var i := CutAt(m, l, rem);
            Total(m, l[..i]) <= rem <= Total(m, l[..i]) + |m[l[i]].data|
    decreases |l|
  {
    if |l| > 1 && rem > |m[l[0]].data| {
      CutAtExact(m, l[1..], rem - |m[l[0]].data|);
      var i := CutAt(m, l, rem);
      assert l[..i][1..] == l[1..][..i - 1];
    } else {
      assert l[..0] == [];
      if |l| == 1 { assert l[1..] == []; }
    }
  }

  /** The memory with the lengths adjusted, before the tail is freed. */
  function Shortened(m: Mem, l: seq<nat>, newLen: u16): Mem
    requires l != [] && l[0] in m && l[CutAt(m, l, newLen)] in m
  {
    var i := CutAt(m, l, newLen);
    var rem := newLen - Total(m, l[..i]);
    var n := AddTot(m, l[..i], newLen - m[l[0]].totLen);
    if 0 <= rem <= |m[l[i]].data| then n[l[i] := n[l[i]].(data := m[l[i]].data[..rem], totLen := rem)] else n
  }

  /** pbuf_realloc() of the chain l. */
  function Realloc(m: Mem, l: seq<nat>, newLen: u16): Mem
    requires l != [] && l[0] in m && l[CutAt(m, l, newLen)] in m
  {
    if newLen >= m[l[0]].totLen then m
    else
      var i := CutAt(m, l, newLen);
      var r := Released(Shortened(m, l, newLen), l[i + 1..]);
      if l[i] in r then SetNext(r, l[i], Null) else r
  }

  lemma ReallocSound(m: Mem, handles: multiset<nat>, p: nat, l: seq<nat>, newLen: u16)
    requires Sound(m, handles) && Chain(m, Pb(p), l) && p in m && l[CutAt(m, l, newLen)] in m
    ensures Sound(Realloc(m, l, newLen), handles)
  {
    hide Sound, Acyclic, Released;
    var i := CutAt(m, l, newLen);
    var n := Shortened(m, l, newLen);
    AddTotSame(m, l[..i], newLen - m[l[0]].totLen);
    DataSound(m, n, handles);
    ChainMembers(m, Pb(p), l);
    ChainFrame(m, n, Pb(p), l);
    CutSound(n, handles, p, l, i);
  }

  /** Truncation truncates the bytes and keeps the totals right. */
  lemma ReallocData(m: Mem, p: nat, l: seq<nat>, newLen: u16)
    requires Chain(m, Pb(p), l) && TotOk(m, l) && newLen < Total(m, l) && l[CutAt(m, l, newLen)] in m
    ensures var i, n := CutAt(m, l, newLen), Realloc(m, l, newLen);
            && Chain(n, Pb(p), l[..i + 1])
            && Flat(n, l[..i + 1]) == Flat(m, l)[..newLen]
            && TotOk(n, l[..i + 1])
  {
    hide Flat, CutAt, Realloc, Shortened, Chain, TotOk, SameLinks;
    ReallocLinks(m, p, l, newLen);
    ShortenedAt(m, p, l, newLen);
    var i, k, n := CutAt(m, l, newLen), Shortened(m, l, newLen), Realloc(m, l, newLen);
    ShortenedFlat(m, k, l, i, newLen);
    TotFrame(k, n, l[..i + 1]);
  }

  /** The chain after pbuf_realloc(), and its pbufs, which are those of the loop but for their links. */
  lemma ReallocLinks(m: Mem, p: nat, l: seq<nat>, newLen: u16)
    requires Chain(m, Pb(p), l) && TotOk(m, l) && newLen < Total(m, l) && l[CutAt(m, l, newLen)] in m
    ensures var i, k, n := CutAt(m, l, newLen), Shortened(m, l, newLen), Realloc(m, l, newLen);
            && Chain(n, Pb(p), l[..i + 1])
            && forall j :: 0 <= j <= i ==> l[j] in k && l[j] in n && n[l[j]].data == k[l[j]].data && n[l[j]].totLen == k[l[j]].totLen
  {
    hide Flat, CutAt, Shortened, Released, Short, Chain, TotOk, Total;
    TotHead(m, l);
    var i, k := CutAt(m, l, newLen), Shortened(m, l, newLen);
    ChainMembers(m, Pb(p), l);
    ShortenedAt(m, p, l, newLen);
    ChainLinks(m, k, Pb(p), l);
    ChainMembers(k, Pb(p), l);
    BehindDistinct(k, p, l, i);
    ReallocChain(k, p, l, i);
    forall j | 0 <= j <= i ensures l[j] in k && l[j] in Released(k, l[i + 1..]) && Released(k, l[i + 1..])[l[j]] == k[l[j]] {
      assert l[j] in l;
      ReleasedKeeps(k, l[i + 1..], l[j]);
    }
  }

  lemma ReallocChain(m: Mem, p: nat, l: seq<nat>, i: nat)
    requires Chain(m, Pb(p), l) && i < |l|
    ensures l[i] in Released(m, l[i + 1..])
    ensures Chain(SetNext(Released(m, l[i + 1..]), l[i], Null), Pb(p), l[..i + 1])
  {
    var r := Released(m, l[i + 1..]);
    BehindDistinct(m, p, l, i);
    ChainMembers(m, Pb(p), l);
    forall j | 0 <= j <= i ensures l[j] in r && r[l[j]] == m[l[j]] { ReleasedKeeps(m, l[i + 1..], l[j]); }
    hide Released;
    ChainCut(m, Pb(p), l, i);
    ChainFrame(SetNext(m, l[i], Null), SetNext(r, l[i], Null), Pb(p), l[..i + 1]);
  }

  /** The lengths after the loop of pbuf_realloc(). */
  ghost predicate Short(m: Mem, n: Mem, l: seq<nat>, i: nat, newLen: u16) {
    var rem := newLen - Total(m, l[..if i <= |l| then i else 0]);
    && i < |l| && (forall x :: x in l ==> x in m && x in n)
    && 0 <= rem <= |m[l[i]].data| && n[l[i]].data == m[l[i]].data[..rem] && n[l[i]].totLen == rem
    && (forall j :: 0 <= j < i ==>
          n[l[j]].data == m[l[j]].data && n[l[j]].totLen == Low16(m[l[j]].totLen + (newLen - Total(m, l))))
  }

  lemma ShortenedAt(m: Mem, p: nat, l: seq<nat>, newLen: u16)
    requires Chain(m, Pb(p), l) && TotOk(m, l) && newLen < Total(m, l) && l[CutAt(m, l, newLen)] in m
    ensures SameLinks(m, Shortened(m, l, newLen)) && Short(m, Shortened(m, l, newLen), l, CutAt(m, l, newLen), newLen)
  {
    hide Flat, CutAt, Chain, TotOk, Low16, AddTot, Short;
    var i := CutAt(m, l, newLen);
    TotHead(m, l);
    ChainMembers(m, Pb(p), l);
    CutAtExact(m, l, newLen);
    forall j | 0 <= j < i ensures l[j] != l[i] { ChainDistinct(m, Pb(p), l, j, i); }
    AddTotSame(m, l[..i], newLen - Total(m, l));
    ShortBy(m, l, i, newLen);
  }

  lemma TotHead(m: Mem, l: seq<nat>)
    requires TotOk(m, l) && l != []
    ensures l[0] in m && m[l[0]].totLen == Total(m, l)
  {
    assert l[0..] == l;
  }

  lemma ShortBy(m: Mem, l: seq<nat>, i: nat, newLen: u16)
    requires i < |l| && (forall x :: x in l ==> x in m) && forall j :: 0 <= j < i ==> l[j] != l[i]
    requires 0 <= newLen - Total(m, l[..i]) <= |m[l[i]].data|
    ensures var rem, n := newLen - Total(m, l[..i]), AddTot(m, l[..i], newLen - Total(m, l));
            l[i] in n && Short(m, n[l[i] := n[l[i]].(data := m[l[i]].data[..rem], totLen := rem)], l, i, newLen)
  {
    hide Flat, Low16, AddTot;
    AddTotSame(m, l[..i], newLen - Total(m, l));
    forall j | 0 <= j < i
      ensures var n := AddTot(m, l[..i], newLen - Total(m, l));
              l[j] in n && n[l[j]] == m[l[j]].(totLen := Low16(m[l[j]].totLen + (newLen - Total(m, l))))
    {
      assert l[j] == l[..i][j];
      AddTotAt(m, l[..i], newLen - Total(m, l), l[j]);
    }
  }

  lemma AddTotAt(m: Mem, l: seq<nat>, d: int, x: nat)
    requires x in m && x in l
    ensures x in AddTot(m, l, d) && AddTot(m, l, d)[x] == m[x].(totLen := Low16(m[x].totLen + d))
  {
  }

  /** The bytes from place j of the shortened chain on. */
  lemma ShortFrom(m: Mem, n: Mem, l: seq<nat>, i: nat, newLen: u16, j: nat)
    requires Short(m, n, l, i, newLen) && j <= i
    ensures l[..i + 1][j..] == l[j..i] + [l[i]] && newLen - Total(m, l[..i]) <= |m[l[i]].data|
    ensures Flat(n, l[..i + 1][j..]) == Flat(m, l[j..i]) + m[l[i]].data[..newLen - Total(m, l[..i])]
  {
    assert l[..i + 1][j..] == l[j..i] + [l[i]];
    FlatJoin(n, l[j..i], [l[i]]);
    FlatFrame(m, n, l[j..i]);
    assert Flat(n, [l[i]]) == n[l[i]].data + Flat(n, [l[i]][1..]);
  }

  lemma FlatNone(m: Mem)
    ensures Flat(m, []) == []
  {
  }

  lemma ShortTotal(m: Mem, n: Mem, l: seq<nat>, i: nat, newLen: u16, j: nat)
    requires TotOk(m, l) && Short(m, n, l, i, newLen) && newLen < Total(m, l) && j <= i
    ensures l[j] in n && n[l[j]].totLen == Total(n, l[..i + 1][j..])
  {
    hide Flat, Low16;
    ShortFrom(m, n, l, i, newLen, j);
    if j < i {
      FlatSplit(m, l, j);
      FlatSplit(m, l[..i], j);
      assert l[..i][j..] == l[j..i] && l[..i][..j] == l[..j];
      Low16Small(Total(n, l[..i + 1][j..]));
    } else {
      assert l[j..i] == [];
      FlatNone(m);
    }
  }

  lemma FlatAround(m: Mem, l: seq<nat>, i: nat)
    requires i < |l| && l[i] in m
    ensures Flat(m, l) == Flat(m, l[..i]) + m[l[i]].data + Flat(m, l[i + 1..])
  {
    FlatSplit(m, l, i);
    assert l[i..][1..] == l[i + 1..];
  }

  lemma ShortFlat(m: Mem, n: Mem, l: seq<nat>, i: nat, newLen: u16)
    requires Short(m, n, l, i, newLen) && newLen < Total(m, l)
    ensures Flat(n, l[..i + 1]) == Flat(m, l)[..newLen]
  {
    hide Flat, Low16;
    FlatAround(m, l, i);
    ShortFrom(m, n, l, i, newLen, 0);
    assert l[..i + 1][0..] == l[..i + 1] && l[0..i] == l[..i];
    var a, d := Flat(m, l[..i]), m[l[i]].data;
    assert (a + d + Flat(m, l[i + 1..]))[..newLen] == a + d[..newLen - |a|];
  }

  lemma ShortenedFlat(m: Mem, n: Mem, l: seq<nat>, i: nat, newLen: u16)
    requires TotOk(m, l) && Short(m, n, l, i, newLen) && newLen < Total(m, l)
    ensures Flat(n, l[..i + 1]) == Flat(m, l)[..newLen] && TotOk(n, l[..i + 1])
  {
    ShortFlat(m, n, l, i, newLen);
    hide Flat, Low16;
    forall j | 0 <= j <= i ensures l[j] in n && n[l[j]].totLen == Total(n, l[..i + 1][j..]) {
      ShortTotal(m, n, l, i, newLen, j);
    }
    hide Short, Total;
  }

  // ---------------------------------------------------------------- writing

  /** Store d as the data of a pbuf. */
  function SetData(m: Mem, x: nat, d: seq<byte>): Mem
    requires x in m
  {
    m[x := m[x].(data := d)]
  }

  lemma FlatSet(m: Mem, p: Ptr, l: seq<nat>, i: nat, d: seq<byte>)
    requires Chain(m, p, l) && i < |l|
    ensures l[i] in m && Flat(SetData(m, l[i], d), l) == Flat(m, l[..i]) + d + Flat(m, l[i + 1..])
    ensures Flat(m, l) == Flat(m, l[..i]) + m[l[i]].data + Flat(m, l[i + 1..])
    ensures Flat(SetData(m, l[i], d), l[i + 1..]) == Flat(m, l[i + 1..])
  {
    ChainTail(m, p, l, i);
    var n := SetData(m, l[i], d);
    FlatAround(m, l, i);
    FlatAround(n, l, i);
    forall j | 0 <= j < |l| && j != i ensures l[j] != l[i] {
      if j < i { ChainDistinct(m, p, l, j, i); } else { ChainDistinct(m, p, l, i, j); }
    }
    FlatFrame(m, n, l[..i]);
    FlatFrame(m, n, l[i + 1..]);
  }

  /** Only the bytes of pbufs in l change, and no lengths. */
  ghost predicate Rewritten(m: Mem, n: Mem, l: seq<nat>) {
    && SameRefs(m, n)
    && (forall x: nat :: x in m ==> n[x].totLen == m[x].totLen && |n[x].data| == |m[x].data|)
    && (forall x: nat :: x in m && x !in l ==> n[x] == m[x])
  }

  lemma RewrittenSet(m: Mem, n: Mem, l: seq<nat>, x: nat, d: seq<byte>)
    requires Rewritten(m, n, l) && x in n && x in l && |d| == |n[x].data|
    ensures Rewritten(m, SetData(n, x, d), l)
  {
  }

  lemma RewrittenNone(m: Mem, l: seq<nat>)
    ensures Rewritten(m, m, l)
  {
  }

  lemma ChainLinks(m: Mem, n: Mem, p: Ptr, l: seq<nat>)
    requires Chain(m, p, l) && SameLinks(m, n)
    ensures Chain(n, p, l)
  {
    ChainMembers(m, p, l);
    ChainFrame(m, n, p, l);
  }

  /** The bytes of the first and the other pbufs from place i on. */
  lemma FlatFirst(m: Mem, p: Ptr, l: seq<nat>, i: nat)
    requires Chain(m, p, l) && i < |l|
    ensures l[i] in m && Flat(m, l[i..]) == m[l[i]].data + Flat(m, l[i + 1..])
    ensures m[l[i]].next == if i + 1 < |l| then Pb(l[i + 1]) else Null
  {
    ChainTail(m, p, l, i);
    assert l[i..][1..] == l[i + 1..];
  }

  /** Overwriting bytes of pbuf i, from offset o, overwrites the bytes of the chain from there. */
  lemma Fill(m: Mem, p: Ptr, l: seq<nat>, i: nat, o: nat, part: seq<byte>)
    requires Chain(m, p, l) && i < |l| && l[i] in m && o + |part| <= |m[l[i]].data|
    ensures var d := m[l[i]].data;
            var n, pos := SetData(m, l[i], d[..o] + part + d[o + |part|..]), Total(m, l[..i]) + o;
            && pos + |part| <= Total(m, l)
            && Flat(n, l) == Flat(m, l)[..pos] + part + Flat(m, l)[pos + |part|..]
            && Total(n, l[..i]) == Total(m, l[..i]) && Total(n, l[..i + 1]) == Total(m, l[..i]) + |d|
            && Chain(n, p, l)
  {
    hide Flat, Chain;
    var d := m[l[i]].data;
    var e := d[..o] + part + d[o + |part|..];
    var n := SetData(m, l[i], e);
    FlatSet(m, p, l, i, e);
    ChainLinks(m, n, p, l);
    FillBefore(m, p, l, i, e);
    FillSeq(Flat(m, l[..i]), d, Flat(m, l[i + 1..]), o, part);
    TotalNext(n, l, i);
  }

  lemma FillBefore(m: Mem, p: Ptr, l: seq<nat>, i: nat, d: seq<byte>)
    requires Chain(m, p, l) && i < |l| && l[i] in m
    ensures Flat(SetData(m, l[i], d), l[..i]) == Flat(m, l[..i])
  {
    forall j | 0 <= j < i ensures l[j] != l[i] { ChainDistinct(m, p, l, j, i); }
    FlatFrame(m, SetData(m, l[i], d), l[..i]);
  }

  lemma FillSeq(a: seq<byte>, d: seq<byte>, b: seq<byte>, o: nat, part: seq<byte>)
    requires o + |part| <= |d|
    ensures var s := a + d + b;
            a + (d[..o] + part + d[o + |part|..]) + b == s[..|a| + o] + part + s[|a| + o + |part|..]
  {
    var s := a + d + b;
    assert s[..|a| + o] == a + d[..o] && s[|a| + o + |part|..] == d[o + |part|..] + b;
  }

  /** pbuf_take() has put c bytes of the data into the first i pbufs. */
  ghost predicate Filled(m0: Mem, m: Mem, p: Ptr, l: seq<nat>, i: nat, c: nat, data: seq<byte>) {
    && Chain(m, p, l) && Rewritten(m0, m, l) && i <= |l| && c <= |data| <= Total(m0, l)
    && Flat(m, l) == data[..c] + Flat(m0, l)[c..]
    && (c < |data| ==> Total(m, l[..i]) == c)
  }

  lemma FilledNone(m: Mem, p: Ptr, l: seq<nat>, data: seq<byte>)
    requires Chain(m, p, l) && |data| <= Total(m, l)
    ensures Filled(m, m, p, l, 0, 0, data)
  {
    RewrittenNone(m, l);
    assert l[..0] == [];
  }

  /** There is a next pbuf as long as there is data left. */
  lemma FilledMore(m0: Mem, m: Mem, p: Ptr, l: seq<nat>, i: nat, c: nat, data: seq<byte>)
    requires Filled(m0, m, p, l, i, c, data) && c < |data|
    ensures i < |l| && l[i] in m && m[l[i]].next == if i + 1 < |l| then Pb(l[i + 1]) else Null
  {
    assert l[..|l|] == l;
    ChainTail(m, p, l, i);
  }

  lemma FilledStep(m0: Mem, m: Mem, p: Ptr, l: seq<nat>, i: nat, c: nat, data: seq<byte>)
    requires Filled(m0, m, p, l, i, c, data) && c < |data| && i < |l| && l[i] in m
    ensures var d := m[l[i]].data;
            var k := if |data| - c > |d| then |d| else |data| - c;
            Filled(m0, SetData(m, l[i], data[c..c + k] + d[k..]), p, l, i + 1, c + k, data)
  {
    hide Flat, Chain, Rewritten;
    var d := m[l[i]].data;
    var k := if |data| - c > |d| then |d| else |data| - c;
    assert d[..0] + data[c..c + k] + d[k..] == data[c..c + k] + d[k..];
    Fill(m, p, l, i, 0, data[c..c + k]);
    RewrittenSet(m0, m, l, l[i], data[c..c + k] + d[k..]);
    Spliced(data, Flat(m0, l), c, k);
  }

  lemma FilledAll(m0: Mem, m: Mem, p: Ptr, l: seq<nat>, i: nat, data: seq<byte>)
    requires Filled(m0, m, p, l, i, |data|, data)
    ensures Rewritten(m0, m, l) && Flat(m, l) == data + Flat(m0, l)[|data|..]
  {
    assert data[..|data|] == data;
  }

  /** One more piece of the data has replaced the bytes that were there. */
  lemma Spliced(data: seq<byte>, flat: seq<byte>, c: nat, k: nat)
    requires c + k <= |data| <= |flat|
    ensures var s := data[..c] + flat[c..];
            s[..c] + data[c..c + k] + s[c + k..] == data[..c + k] + flat[c + k..]
  {
    assert data[..c + k] == data[..c] + data[c..c + k];
  }

  lemma ChainStart(m: Mem, p: Ptr, l: seq<nat>)
    requires Chain(m, p, l)
    ensures p == if l != [] then Pb(l[0]) else Null
    ensures forall x :: x in l ==> x in m
  {
    ChainMembers(m, p, l);
  }

  // ---------------------------------------------------------------- pbuf_copy

  /** Two chains that share no pbuf; the target is long enough. */
  ghost predicate Pair(m: Mem, pt: Ptr, pf: Ptr, lt: seq<nat>, lf: seq<nat>) {
    && Chain(m, pt, lt) && Chain(m, pf, lf) && TotOk(m, lt) && TotOk(m, lf) && Total(m, lf) <= Total(m, lt)
    && (forall x :: x in lf ==> x !in lt)
  }

  /** The chain does not end in an empty pbuf behind others. */
  ghost predicate NoEmptyEnd(m: Mem, l: seq<nat>) {
    |l| > 1 && l[|l| - 1] in m ==> m[l[|l| - 1]].data != []
  }

  /** The whole source fills the only pbuf of the target and empty ones follow: the target ends before
      the source does. */
  ghost predicate Spent(m: Mem, lt: seq<nat>, lf: seq<nat>) {
    && |lt| == 1 && |lf| > 1 && lt[0] in m && lf[0] in m && |m[lf[0]].data| == |m[lt[0]].data|
  }

  /** The source is not taken for a queue of packets: it does not end in an empty pbuf, but for a second
      one that is reached at once. */
  ghost predicate OnePacket(m: Mem, lt: seq<nat>, lf: seq<nat>) {
    || NoEmptyEnd(m, lf)
    || (|lf| == 2 && lt != [] && lt[0] in m && lf[0] in m && |m[lf[0]].data| <= |m[lt[0]].data|)
  }

  /** pbuf_copy() has come to pbuf i of the source and has not stopped. */
  ghost predicate Admitted(m: Mem, lt: seq<nat>, lf: seq<nat>, i: nat) {
    && !Spent(m, lt, lf)
    && (i + 1 < |lf| && lf[i] in m ==> |m[lf[i]].data| != m[lf[i]].totLen)
    && (i + 2 >= |lf| ==> NoEmptyEnd(m, lf) || (i > 0 && OnePacket(m, lt, lf)))
  }

  /** pbuf_copy() is at offset o of pbuf j of the target and at offset q of pbuf i of the source; all
      before that is copied, and nothing else has changed. */
  ghost predicate Copied(m0: Mem, m: Mem, lt: seq<nat>, lf: seq<nat>, j: nat, o: nat, i: nat, q: nat) {
    && Rewritten(m0, m, lt) && j <= |lt| && i <= |lf|
    && var c := Total(m0, lf[..i]) + q;
       && c == Total(m0, lt[..j]) + o <= Total(m0, lf) <= Total(m0, lt)
       && Through(m, lt, Flat(m0, lf), Flat(m0, lt), c)
  }

  /** The chain holds the first c bytes of the data, and behind them what it held before. */
  ghost predicate Through(m: Mem, l: seq<nat>, data: seq<byte>, flat: seq<byte>, c: nat) {
    c <= |data| <= |flat| && Flat(m, l) == data[..c] + flat[c..]
  }

  lemma {:induction false} TotalRewritten(m: Mem, n: Mem, l: seq<nat>, k: seq<nat>)
    requires Rewritten(m, n, l)
    ensures Total(n, k) == Total(m, k)
    decreases |k|
  {
    if k != [] { TotalRewritten(m, n, l, k[1..]); }
  }

  lemma CopiedNone(m: Mem, pt: Ptr, pf: Ptr, lt: seq<nat>, lf: seq<nat>)
    requires Pair(m, pt, pf, lt, lf)
    ensures Copied(m, m, lt, lf, 0, 0, 0, 0)
  {
    hide Flat, Chain, Rewritten, TotOk;
    RewrittenNone(m, lt);
    FlatNone(m);
    assert lt[..0] == [] && lf[..0] == [];
  }

  /** The current pbufs: the memory says the same of both as at the start, but for the bytes of the
      target. */
  lemma CopiedHere(m0: Mem, m: Mem, pt: Ptr, pf: Ptr, lt: seq<nat>, lf: seq<nat>, j: nat, o: nat, i: nat, q: nat)
    requires Pair(m0, pt, pf, lt, lf) && Copied(m0, m, lt, lf, j, o, i, q)
    requires i < |lf| && lf[i] in m0 && j < |lt| && lt[j] in m0
    ensures lf[i] in m && m[lf[i]] == m0[lf[i]] && lt[j] in m
    ensures |m[lt[j]].data| == |m0[lt[j]].data|
  {
    hide Flat, Chain;
  }

  /** One piece is copied. */
  lemma CopiedStep(m0: Mem, m: Mem, pt: Ptr, pf: Ptr, lt: seq<nat>, lf: seq<nat>, j: nat, o: nat, i: nat, q: nat, k: nat)
    requires Pair(m0, pt, pf, lt, lf) && Copied(m0, m, lt, lf, j, o, i, q)
    requires i < |lf| && lf[i] in m && lf[i] in m0 && m[lf[i]] == m0[lf[i]] && q + k <= |m[lf[i]].data|
    requires j < |lt| && lt[j] in m && o + k <= |m[lt[j]].data|
    ensures var t, f := m[lt[j]].data, m[lf[i]].data;
            Copied(m0, SetData(m, lt[j], t[..o] + f[q..q + k] + t[o + k..]), lt, lf, j, o + k, i, q + k)
  {
    hide Flat, Chain, TotOk, Rewritten, Pair, Through, SetData;
    var t, f := m[lt[j]].data, m[lf[i]].data;
    PairChains(m0, pt, pf, lt, lf);
    ChainOfRewritten(m0, m, pt, lt);
    TotalRewritten(m0, m, lt, lt[..j]);
    PieceOf(m0, lf, i, q, k);
    PutPiece(m, pt, lt, j, o, f[q..q + k], Flat(m0, lf), Flat(m0, lt), Total(m0, lf[..i]) + q, k);
    RewrittenSet(m0, m, lt, lt[j], t[..o] + f[q..q + k] + t[o + k..]);
  }

  lemma PairChains(m: Mem, pt: Ptr, pf: Ptr, lt: seq<nat>, lf: seq<nat>)
    requires Pair(m, pt, pf, lt, lf)
    ensures Chain(m, pt, lt) && Chain(m, pf, lf) && TotOk(m, lt) && TotOk(m, lf)
  {
  }

  /** The next piece of the data overwrites what was there. */
  lemma PutPiece(m: Mem, p: Ptr, l: seq<nat>, j: nat, o: nat, part: seq<byte>, data: seq<byte>, flat: seq<byte>, c: nat, k: nat)
    requires Chain(m, p, l) && j < |l| && l[j] in m && k == |part| && o + k <= |m[l[j]].data|
    requires c == Total(m, l[..j]) + o && c + k <= |data| && part == data[c..c + k]
    requires Through(m, l, data, flat, c)
    ensures var t := m[l[j]].data;
            Through(SetData(m, l[j], t[..o] + part + t[o + k..]), l, data, flat, c + k)
  {
    hide Flat, Chain;
    Fill(m, p, l, j, o, part);
    Spliced(data, flat, c, k);
  }

  lemma ChainOfRewritten(m: Mem, n: Mem, p: Ptr, l: seq<nat>)
    requires Rewritten(m, n, l) && Chain(m, p, l)
    ensures Chain(n, p, l)
  {
    ChainLinks(m, n, p, l);
  }

  lemma PieceOf(m: Mem, l: seq<nat>, i: nat, q: nat, k: nat)
    requires i < |l| && l[i] in m && q + k <= |m[l[i]].data|
    ensures var c := Total(m, l[..i]) + q;
            c + k <= Total(m, l) && Flat(m, l)[c..c + k] == m[l[i]].data[q..q + k]
  {
    hide Flat;
    FlatAround(m, l, i);
  }

  lemma CopiedNextFrom(m0: Mem, m: Mem, lt: seq<nat>, lf: seq<nat>, j: nat, o: nat, i: nat)
    requires i < |lf| && lf[i] in m0 && Copied(m0, m, lt, lf, j, o, i, |m0[lf[i]].data|)
    ensures Copied(m0, m, lt, lf, j, o, i + 1, 0)
  {
    TotalNext(m0, lf, i);
  }

  lemma CopiedNextTo(m0: Mem, m: Mem, lt: seq<nat>, lf: seq<nat>, j: nat, i: nat, q: nat)
    requires j < |lt| && lt[j] in m0 && Copied(m0, m, lt, lf, j, |m0[lt[j]].data|, i, q)
    ensures Copied(m0, m, lt, lf, j + 1, 0, i, q)
  {
    TotalNext(m0, lt, j);
  }

  lemma TotalNext(m: Mem, l: seq<nat>, i: nat)
    requires i < |l| && l[i] in m
    ensures Total(m, l[..i + 1]) == Total(m, l[..i]) + |m[l[i]].data|
  {
    FlatAround(m, l[..i + 1], i);
    assert l[..i + 1][..i] == l[..i] && l[..i + 1][i + 1..] == [];
  }

  lemma CopiedPart(m0: Mem, m: Mem, lt: seq<nat>, lf: seq<nat>, j: nat, o: nat, i: nat, q: nat) returns (c: nat)
    requires Copied(m0, m, lt, lf, j, o, i, q)
    ensures Rewritten(m0, m, lt) && Through(m, lt, Flat(m0, lf), Flat(m0, lt), c)
  {
    c := Total(m0, lf[..i]) + q;
  }

  /** The chain is still there, and its pbufs are no longer than 16 bits can say. */
  lemma TakenChain(m0: Mem, m: Mem, p: Ptr, l: seq<nat>)
    requires Chain(m0, p, l) && TotOk(m0, l) && Rewritten(m0, m, l)
    ensures Chain(m, p, l) && forall x :: x in l && x in m ==> |m[x].data| < 0x1_0000
  {
    ChainOfRewritten(m0, m, p, l);
    forall x | x in l && x in m ensures |m[x].data| < 0x1_0000 {
      var i :| 0 <= i < |l| && l[i] == x;
      FlatFirst(m0, p, l, i);
    }
  }

  /** tot_len equal to len before the end of a chain means that only empty pbufs follow. */
  lemma OnlyLast(m: Mem, p: Ptr, l: seq<nat>, i: nat)
    requires Chain(m, p, l) && TotOk(m, l) && i + 1 < |l|
    ensures l[i] in m && m[l[i]].totLen == |m[l[i]].data| + Total(m, l[i + 1..])
    ensures NoEmptyEnd(m, l) ==> |m[l[i]].data| != m[l[i]].totLen
    ensures i + 2 == |l| && |m[l[i]].data| != m[l[i]].totLen ==> NoEmptyEnd(m, l)
  {
    hide Flat, Chain;
    FlatFirst(m, p, l, i);
    LastBytes(m, p, l, i + 1);
  }

  /** The last pbuf has its bytes at the end of any rest of the chain. */
  lemma LastBytes(m: Mem, p: Ptr, l: seq<nat>, i: nat)
    requires Chain(m, p, l) && i < |l|
    ensures l[|l| - 1] in m && Total(m, l[i..]) >= |m[l[|l| - 1]].data|
    ensures i + 1 == |l| ==> Total(m, l[i..]) == |m[l[i]].data|
  {
    hide Flat, Chain;
    ChainMembers(m, p, l);
    var k := l[i..];
    assert k[|k| - 1] == l[|l| - 1] && l[|l| - 1] in l;
    FlatAround(m, k, |k| - 1);
    if i + 1 == |l| { FlatNone(m); assert k[..0] == [] && k[1..] == []; }
  }

  lemma CopiedAll(m0: Mem, m: Mem, lt: seq<nat>, lf: seq<nat>, j: nat, o: nat)
    requires Copied(m0, m, lt, lf, j, o, |lf|, 0)
    ensures Rewritten(m0, m, lt) && Flat(m, lt) == Flat(m0, lf) + Flat(m0, lt)[Total(m0, lf)..]
  {
    hide Flat, Rewritten;
    assert lf[..|lf|] == lf;
    var data := Flat(m0, lf);
    assert data[..|data|] == data;
  }

  /** Pbuf i of a chain. */
  ghost predicate Here(m: Mem, l: seq<nat>, i: nat)
    requires i < |l|
  {
    && l[i] in m
    && m[l[i]].next == (if i + 1 < |l| then Pb(l[i + 1]) else Null)
  }

  /** The pbufs at both places, in the memory at the start. */
  lemma PairHere(m: Mem, pt: Ptr, pf: Ptr, lt: seq<nat>, lf: seq<nat>, j: nat, i: nat)
    requires Pair(m, pt, pf, lt, lf)
    ensures i < |lf| ==> Here(m, lf, i)
    ensures j < |lt| ==> Here(m, lt, j)
  {
    hide Flat, Chain, TotOk;
    if i < |lf| { FlatFirst(m, pf, lf, i); }
    if j < |lt| { FlatFirst(m, pt, lt, j); }
  }

  /** ... and in the memory now. */
  lemma CopiedLinks(m0: Mem, m: Mem, pt: Ptr, pf: Ptr, lt: seq<nat>, lf: seq<nat>, j: nat, o: nat, i: nat, q: nat)
    requires Pair(m0, pt, pf, lt, lf) && Copied(m0, m, lt, lf, j, o, i, q)
    ensures i < |lf| ==> lf[i] in m0 && lf[i] in m && m[lf[i]] == m0[lf[i]]
    ensures j < |lt| ==> lt[j] in m0 && lt[j] in m && m[lt[j]].next == m0[lt[j]].next
    ensures j < |lt| ==> m[lt[j]].totLen == m0[lt[j]].totLen && |m[lt[j]].data| == |m0[lt[j]].data|
  {
    hide Flat, Chain;
    ChainMembers(m0, pt, lt);
    ChainMembers(m0, pf, lf);
  }

  /** At the end of the target all is copied, unless only empty pbufs were left before. */
  lemma CopiedRoom(m0: Mem, m: Mem, pt: Ptr, pf: Ptr, lt: seq<nat>, lf: seq<nat>, i: nat, q: nat)
    requires Pair(m0, pt, pf, lt, lf) && Copied(m0, m, lt, lf, |lt|, 0, i, q) && i < |lf| && lf[i] in m0
    ensures q >= |m0[lf[i]].data|
    ensures i > 0 && q == 0 ==> lf[i - 1] in m0 && |m0[lf[i - 1]].data| == m0[lf[i - 1]].totLen
  {
    hide Flat, Chain, Through, Rewritten;
    assert lt[..|lt|] == lt;
    FlatAround(m0, lf, i);
    FlatSplit(m0, lf, i);
    if i > 0 {
      OnlyLast(m0, pf, lf, i - 1);
      assert lf[i - 1 + 1..] == lf[i..];
    }
  }

  /** The target ends before the source: it was Spent. From pbuf i0 of the source to pbuf i, in the
      first step or in a later one. */
  lemma NoRoom(m0: Mem, m: Mem, pt: Ptr, pf: Ptr, lt: seq<nat>, lf: seq<nat>, i0: nat, i: nat, q: nat, begin: bool)
    requires Pair(m0, pt, pf, lt, lf) && Copied(m0, m, lt, lf, |lt|, 0, i, q) && i < |lf| && lf[i] in m0
    requires if i == i0 then q < |m0[lf[i]].data| else i == i0 + 1 && q == 0
    requires Begun(m0, lt, lf, i0, i, begin) && (begin ==> |lt| == 1 && |m0[lt[0]].data| <= |m0[lf[0]].data|)
    ensures Spent(m0, lt, lf)
  {
    hide Flat, Chain, Through, Rewritten, Copied, TotOk;
    CopiedRoom(m0, m, pt, pf, lt, lf, i, q);
  }

  /** The first step ends at pbuf 0 or 1, and a later one starts where the source was admitted. */
  ghost predicate Begun(m: Mem, lt: seq<nat>, lf: seq<nat>, i0: nat, i: nat, begin: bool) {
    if begin then
      && lf != [] && lf[0] in m && lt != [] && lt[0] in m
      && i0 == 0 && (i == 0 <==> |m[lf[0]].data| > |m[lt[0]].data|)
    else Admitted(m, lt, lf, i0)
  }

  /** The source passes its check: no end of a packet is seen. */
  lemma AdmittedOn(m: Mem, pt: Ptr, pf: Ptr, lt: seq<nat>, lf: seq<nat>, i0: nat, i: nat, begin: bool)
    requires Pair(m, pt, pf, lt, lf) && Begun(m, lt, lf, i0, i, begin) && (i == i0 || i == i0 + 1) && i0 < |lf|
    requires begin ==> !Spent(m, lt, lf)
    requires i + 1 < |lf| && lf[i] in m ==> |m[lf[i]].data| != m[lf[i]].totLen
    ensures Admitted(m, lt, lf, i)
  {
    hide Chain, TotOk, Flat;
    if i + 1 < |lf| { OnlyLast(m, pf, lf, i); }
  }

  lemma AdmittedAll(m: Mem, lt: seq<nat>, lf: seq<nat>)
    requires Admitted(m, lt, lf, |lf|)
    ensures !Spent(m, lt, lf) && OnePacket(m, lt, lf)
  {
  }

  /** Where the source does not pass it, empty pbufs follow. */
  lemma SourceStop(m: Mem, pt: Ptr, pf: Ptr, lt: seq<nat>, lf: seq<nat>, i0: nat, i: nat, begin: bool)
    requires Pair(m, pt, pf, lt, lf) && Begun(m, lt, lf, i0, i, begin) && (i == i0 || i == i0 + 1) && i + 1 < |lf|
    requires lf[i] in m && |m[lf[i]].data| == m[lf[i]].totLen
    requires begin ==> !Spent(m, lt, lf)
    ensures !Spent(m, lt, lf) && !OnePacket(m, lt, lf)
  {
    hide Chain, TotOk, Flat;
    OnlyLast(m, pf, lf, i);
  }

  /** ... and where the target does not. */
  lemma TargetStop(m: Mem, pt: Ptr, pf: Ptr, lt: seq<nat>, lf: seq<nat>, j: nat)
    requires Pair(m, pt, pf, lt, lf) && j + 1 < |lt|
    requires lt[j] in m && |m[lt[j]].data| == m[lt[j]].totLen
    ensures !NoEmptyEnd(m, lt)
  {
    hide Chain, TotOk, Flat;
    OnlyLast(m, pt, lt, j);
  }

  // ---------------------------------------------------------------- pbuf_free, step by step

  /** pbuf_free() has freed the first i pbufs of the chain, which all had one reference. */
  ghost predicate Freeing(m0: Mem, m: Mem, l: seq<nat>, i: nat) {
    i <= |l| && i <= RunLength(m0, l) && m == m0 - Elements(l[..i])
  }

  lemma FreedNone(m: Mem, l: seq<nat>)
    ensures Freeing(m, m, l, 0)
  {
    assert Elements(l[..0]) == {};
  }

  lemma FreeingHere(m0: Mem, m: Mem, p: Ptr, l: seq<nat>, i: nat)
    requires Freeing(m0, m, l, i) && Chain(m0, p, l) && i < |l|
    ensures l[i] in m && l[i] in m0 && m[l[i]] == m0[l[i]]
    ensures m[l[i]].next == if i + 1 < |l| then Pb(l[i + 1]) else Null
  {
    ChainTail(m0, p, l, i);
    forall j | 0 <= j < i ensures l[j] != l[i] { ChainDistinct(m0, p, l, j, i); }
  }

  lemma {:induction false} RunNext(m: Mem, l: seq<nat>, i: nat)
    requires i <= RunLength(m, l) && i < |l| && l[i] in m
    ensures i < RunLength(m, l) <==> m[l[i]].ref == 1
    decreases |l|
  {
    if i > 0 { RunNext(m, l[1..], i - 1); }
  }

  lemma FreeingStep(m0: Mem, m: Mem, l: seq<nat>, i: nat)
    requires Freeing(m0, m, l, i) && i < |l| && l[i] in m0 && l[i] in m && m0[l[i]].ref == 1
    ensures Freeing(m0, m[l[i] := m[l[i]].(ref := 0)] - {l[i]}, l, i + 1)
  {
    RunNext(m0, l, i);
    assert l[..i + 1] == l[..i] + [l[i]];
    assert Elements(l[..i + 1]) == Elements(l[..i]) + {l[i]};
  }

  lemma FreedHere(m0: Mem, m: Mem, l: seq<nat>, i: nat)
    requires Freeing(m0, m, l, i) && i < |l| && l[i] in m0 && l[i] in m && m[l[i]] == m0[l[i]] && m0[l[i]].ref > 1
    ensures RunLength(m0, l) == i && Released(m0, l) == m[l[i] := m[l[i]].(ref := m[l[i]].ref - 1)]
  {
    RunNext(m0, l, i);
  }

  lemma FreedRun(m0: Mem, m: Mem, l: seq<nat>)
    requires Freeing(m0, m, l, |l|)
    ensures RunLength(m0, l) == |l| && Released(m0, l) == m
  {
  }

  // ---------------------------------------------------------------- pbuf_ref, pbuf_chain, pbuf_dechain

  /** pbuf_ref(): the count has 16 bits. */
  function Ref(m: Mem, x: nat): Mem
    requires x in m
  {
    m[x := m[x].(ref := Low16(m[x].ref + 1))]
  }

  /** A new handle is counted right exactly when the count does not wrap. */
  lemma RefExact(m: Mem, handles: multiset<nat>, x: nat)
    requires Sound(m, handles) && x in m
    ensures Sound(Ref(m, x), More(handles, x)) <==> m[x].ref < 0xFFFF
  {
    hide Acyclic, InTo, More;
    if m[x].ref < 0xFFFF {
      Low16Small(m[x].ref + 1);
      AddRef(m, handles, x);
    } else {
      assert Ref(m, x)[x].ref == 0;
    }
  }

  /** pbuf_chain() keeps the counts right for callers that keep their handle on the tail, as long as
      the tail's count does not wrap. */
  lemma ChainSound(m: Mem, handles: multiset<nat>, h: nat, l: seq<nat>, t: nat, k: seq<nat>)
    requires Sound(m, handles) && t in handles && Chain(m, Pb(h), l) && Chain(m, Pb(t), k)
    requires forall x :: x in l ==> x !in k
    ensures l != [] && l[|l| - 1] in m && t in m && t in Cat(m, l, t)
    ensures Cat(m, l, t)[t].ref < 0xFFFF ==> Sound(Ref(Cat(m, l, t), t), handles)
  {
    CatSound(m, handles, h, l, t, k);
    hide Sound, Cat, Chain;
    CatKeys(m, l, t);
    if Cat(m, l, t)[t].ref < 0xFFFF {
      RefExact(Cat(m, l, t), Less(handles, t), t);
      MoreLess(handles, t);
    }
  }

  lemma CatKeys(m: Mem, l: seq<nat>, t: nat)
    requires l != [] && l[|l| - 1] in m && t in m
    ensures Cat(m, l, t).Keys == m.Keys
  {
  }

  lemma MoreLess(handles: multiset<nat>, p: nat)
    requires p in handles
    ensures More(Less(handles, p), p) == handles
  {
    assert handles - multiset{p} + multiset{p} == handles;
  }

  /** With no head pbuf_chain() still counts a reference that nobody has. */
  lemma ChainNullLeaks(m: Mem, handles: multiset<nat>, t: nat)
    requires Sound(m, handles) && t in m
    ensures !Sound(Ref(m, t), handles)
  {
    RefLinks(m, t);
    hide Acyclic, InTo, Counted, Ref;
    AcyclicFrame(m, Ref(m, t));
    RefAt(m, handles, t);
    if Sound(Ref(m, t), handles) { RefAt(Ref(m, t), handles, t); }
  }

  lemma RefLinks(m: Mem, t: nat)
    requires t in m
    ensures SameLinks(m, Ref(m, t)) && Ref(m, t)[t].ref != m[t].ref
  {
  }

  /** pbuf_dechain(): the totals of both parts. */
  function SplitTot(m: Mem, l: seq<nat>): Mem
    requires |l| > 1 && l[0] in m && l[1] in m
  {
    var n := m[l[1] := m[l[1]].(totLen := Low16(m[l[0]].totLen - |m[l[0]].data|))];
    n[l[0] := n[l[0]].(totLen := Low16(|n[l[0]].data|))]
  }

  /** pbuf_dechain() up to its pbuf_free(). */
  function Unchained(m: Mem, l: seq<nat>): Mem
    requires |l| > 1 && l[0] in m && l[1] in m
  {
    SetNext(SplitTot(m, l), l[0], Null)
  }

  /** pbuf_dechain(): the caller's handles stay, the tail has lost one reference. */
  lemma DechainSound(m: Mem, handles: multiset<nat>, p: nat, l: seq<nat>)
    requires Sound(m, handles) && Chain(m, Pb(p), l) && |l| > 1 && l[0] in m && l[1] in m
    ensures Sound(Released(Unchained(m, l), l[1..]), handles)
  {
    var k := SplitTot(m, l);
    SplitTotSame(m, l);
    DataSound(m, k, handles);
    hide Sound, SplitTot, Released, Acyclic;
    ChainLinks(m, k, Pb(p), l);
    CutSound(k, handles, p, l, 0);
    BehindDistinct(k, p, l, 0);
    ReleasedCut(k, l[1..], l[0]);
  }

  lemma SplitTotSame(m: Mem, l: seq<nat>)
    requires |l| > 1 && l[0] in m && l[1] in m
    ensures SameRefs(m, SplitTot(m, l))
  {
  }

  /** What pbuf_dechain() computes for both totals loses nothing. */
  lemma DechainTotals(m: Mem, p: nat, l: seq<nat>)
    requires Chain(m, Pb(p), l) && |l| > 1 && TotOk(m, l) && l[0] in m && l[1] in m
    ensures l[0] == p && m[p].totLen == |m[p].data| + Total(m, l[1..]) && m[l[1]].totLen == Total(m, l[1..])
    ensures Low16(m[p].totLen - |m[p].data|) == m[l[1]].totLen && Low16(|m[p].data|) == |m[p].data|
  {
    hide Flat, TotOk, Chain, Low16;
    ChainStart(m, Pb(p), l);
    FlatFirst(m, Pb(p), l, 0);
    assert l[0..] == l;
    TotHead(m, l);
    TotTail(m, l, 1);
    TotHead(m, l[1..]);
    Low16Small(m[l[1]].totLen);
    Low16Small(|m[p].data|);
  }

  /** The pbufs behind the first keep everything. */
  lemma DechainTail(m: Mem, p: nat, l: seq<nat>)
    requires Chain(m, Pb(p), l) && |l| > 1 && TotOk(m, l) && l[0] in m && l[1] in m
    ensures forall x :: x in l[1..] ==> x in m && x in Unchained(m, l) && Unchained(m, l)[x] == m[x]
    ensures Chain(m, Pb(l[1]), l[1..]) && TotOk(m, l[1..])
  {
    hide Flat, TotOk, Low16, Chain, Unchained;
    DechainTotals(m, p, l);
    BehindDistinct(m, p, l, 0);
    ChainTail(m, Pb(p), l, 1);
    TotTail(m, l, 1);
    ChainStart(m, Pb(l[1]), l[1..]);
    forall x | x in l[1..] ensures x in m && x in Unchained(m, l) && Unchained(m, l)[x] == m[x] { UnchainedAt(m, l, x); }
  }

  lemma UnchainedAt(m: Mem, l: seq<nat>, x: nat)
    requires |l| > 1 && l[0] in m && l[1] in m && x in m && x != l[0]
    requires m[l[1]].totLen == Low16(m[l[0]].totLen - |m[l[0]].data|)
    ensures x in Unchained(m, l) && Unchained(m, l)[x] == m[x]
  {
    hide Low16;
  }

  /** The first pbuf is a chain of its own. */
  lemma DechainHead(m: Mem, p: nat, l: seq<nat>)
    requires Chain(m, Pb(p), l) && |l| > 1 && TotOk(m, l) && l[0] in m && l[1] in m
    ensures var n := Unchained(m, l);
            p in m && p in n && n[p].next == Null && n[p].data == m[p].data && n[p].totLen == |m[p].data|
  {
    hide Flat, TotOk, Low16;
    DechainTotals(m, p, l);
    ChainDistinct(m, Pb(p), l, 0, 1);
    hide Chain;
  }

  /** Both parts have right totals and their own bytes. */
  lemma DechainData(m: Mem, p: nat, l: seq<nat>)
    requires Chain(m, Pb(p), l) && |l| > 1 && TotOk(m, l) && l[0] in m && l[1] in m
    ensures var n := Unchained(m, l);
            && p in m && Chain(n, Pb(p), [p]) && TotOk(n, [p]) && Flat(n, [p]) == m[p].data
            && Chain(n, Pb(l[1]), l[1..]) && TotOk(n, l[1..]) && Flat(n, l[1..]) == Flat(m, l[1..])
  {
    hide Flat, TotOk, Low16, Chain, Unchained;
    var n := Unchained(m, l);
    DechainHead(m, p, l);
    AloneOk(n, p);
    DechainTail(m, p, l);
    ChainFrame(m, n, Pb(l[1]), l[1..]);
    TotFrame(m, n, l[1..]);
  }

  lemma AloneOk(m: Mem, p: nat)
    requires p in m && m[p].next == Null && m[p].totLen == |m[p].data|
    ensures Chain(m, Pb(p), [p]) && TotOk(m, [p]) && Flat(m, [p]) == m[p].data
  {
    assert [p][1..] == [] && [p][0..] == [p];
    assert Flat(m, [p]) == m[p].data + Flat(m, []);
  }

  /** The tail is gone exactly when its first pbuf is, but the count of freed pbufs that
      pbuf_dechain() tests has 8 bits: it is wrong exactly for multiples of 256. */
  lemma DechainExact(m: Mem, p: nat, l: seq<nat>)
    requires Chain(m, Pb(p), l) && |l| > 1 && l[0] in m && l[1] in m
    ensures var n := RunLength(Unchained(m, l), l[1..]);
            (n % 0x100 > 0 <==> l[1] !in Released(Unchained(m, l), l[1..])) <==> !(n > 0 && n % 0x100 == 0)
  {
    var n := Unchained(m, l);
    var r := l[1..];
    BehindDistinct(m, p, l, 0);
    var k := RunLength(n, r);
    if k > 0 {
      assert r[..k][0] == l[1];
    } else {
      assert r[..0] == [];
    }
  }

  // ---------------------------------------------------------------- loops over totals

  /** The loop of pbuf_cat() over the pbufs l: each gets the tot_len that t has at that moment. */
  function AddLoop(m: Mem, l: seq<nat>, t: nat): Mem {
    if l == [] then m
    else
      var n, x := AddLoop(m, l[..|l| - 1], t), l[|l| - 1];
      if x in n && t in n then n[x := n[x].(totLen := Low16(n[x].totLen + n[t].totLen))] else n
  }

  /** pbuf_cat() of the chain l and any pbuf t, which may be one of l. */
  function Joined(m: Mem, l: seq<nat>, t: nat): Mem
    requires l != [] && l[|l| - 1] in m
  {
    AddLoopSame(m, l, t);
    SetNext(AddLoop(m, l, t), l[|l| - 1], Pb(t))
  }

  lemma {:induction false} AddLoopSame(m: Mem, l: seq<nat>, t: nat)
    ensures SameRefs(m, AddLoop(m, l, t))
    decreases |l|
  {
    if l != [] { AddLoopSame(m, l[..|l| - 1], t); }
  }

  /** One more turn of the loop. */
  lemma AddLoopHere(m: Mem, p: Ptr, l: seq<nat>, i: nat, t: nat)
    requires Chain(m, p, l) && i < |l| && t in m
    ensures var n := AddLoop(m, l[..i], t);
            && l[i] in m && l[i] in n && t in n && n[l[i]].next == (if i + 1 < |l| then Pb(l[i + 1]) else Null)
            && AddLoop(m, l[..i + 1], t) == n[l[i] := n[l[i]].(totLen := Low16(n[l[i]].totLen + n[t].totLen))]
  {
    hide Chain, Low16;
    ChainStart(m, p, l);
    FlatFirst(m, p, l, i);
    AddLoopSame(m, l[..i], t);
    assert l[..i + 1][..i] == l[..i];
  }

  lemma AddLoopNone(m: Mem, t: nat)
    ensures AddLoop(m, [], t) == m
  {
  }

  lemma JoinedIs(m: Mem, l: seq<nat>, t: nat)
    requires l != [] && l[|l| - 1] in m
    ensures l[|l| - 1] in AddLoop(m, l, t) && Joined(m, l, t) == SetNext(AddLoop(m, l, t), l[|l| - 1], Pb(t))
    ensures Joined(m, l, t).Keys == m.Keys
  {
    hide AddLoop;
    AddLoopSame(m, l, t);
  }

  lemma NotBefore(m: Mem, p: Ptr, l: seq<nat>, i: nat)
    requires Chain(m, p, l) && i < |l|
    ensures l[i] !in l[..i]
  {
    hide Chain;
    forall j | 0 <= j < i ensures l[j] != l[i] { ChainDistinct(m, p, l, j, i); }
  }

  /** For a tail outside the head chain every pbuf gets the same. */
  lemma {:induction false} AddLoopApart(m: Mem, p: Ptr, l: seq<nat>, i: nat, t: nat)
    requires Chain(m, p, l) && i <= |l| && t in m && t !in l
    ensures AddLoop(m, l[..i], t) == AddTot(m, l[..i], m[t].totLen)
    decreases i
  {
    if i > 0 {
      hide Low16, AddTot, Chain, AddLoop;
      AddLoopApart(m, p, l, i - 1, t);
      AddLoopHere(m, p, l, i - 1, t);
      NotBefore(m, p, l, i - 1);
      AddTotOther(m, l[..i - 1], m[t].totLen, l[i - 1]);
      AddTotOther(m, l[..i - 1], m[t].totLen, t);
      AddTotStep(m, l, i - 1, m[t].totLen);
    } else {
      assert AddTot(m, [], m[t].totLen) == m && l[..0] == [];
    }
  }

  lemma JoinedApart(m: Mem, p: Ptr, l: seq<nat>, t: nat)
    requires Chain(m, p, l) && l != [] && l[|l| - 1] in m && t in m && t !in l
    ensures Joined(m, l, t) == Cat(m, l, t)
  {
    hide AddLoop, AddTot, Chain;
    AddLoopApart(m, p, l, |l|, t);
    assert l[..|l|] == l;
  }

  /** pbuf_cat() of any two pbufs leaves all chains finite exactly when the chain at t does not run
      through the last pbuf of the chain at h; above all, t must not be in it. */
  lemma JoinedExact(m: Mem, p: Ptr, l: seq<nat>, t: nat, k: seq<nat>)
    requires Acyclic(m) && Chain(m, p, l) && Chain(m, Pb(t), k) && l != []
    ensures l[|l| - 1] in m && (Acyclic(Joined(m, l, t)) <==> l[|l| - 1] !in k)
  {
    hide AddLoop, Acyclic;
    FlatFirst(m, p, l, |l| - 1);
    var n := AddLoop(m, l, t);
    AddLoopSame(m, l, t);
    AcyclicFrame(m, n);
    ChainLinks(m, n, Pb(t), k);
    LinkExact(n, l[|l| - 1], t, k);
  }

  lemma AddTotOther(m: Mem, l: seq<nat>, d: int, x: nat)
    requires x in m && x !in l
    ensures x in AddTot(m, l, d) && AddTot(m, l, d)[x] == m[x]
  {
  }

  lemma AddTotStep(m: Mem, l: seq<nat>, i: nat, d: int)
    requires i < |l| && l[i] in m && l[i] !in l[..i]
    ensures var n := AddTot(m, l[..i], d);
            l[i] in n && n[l[i] := m[l[i]].(totLen := Low16(m[l[i]].totLen + d))] == AddTot(m, l[..i + 1], d)
  {
    hide Low16;
    assert l[..i + 1] == l[..i] + [l[i]];
  }

  /** The tail is still a chain once it is cut off. */
  lemma UnchainedChain(m: Mem, p: nat, l: seq<nat>)
    requires Chain(m, Pb(p), l) && |l| > 1 && l[0] in m && l[1] in m
    ensures Chain(Unchained(m, l), Pb(l[1]), l[1..])
    ensures forall x :: x in l ==> x in Unchained(m, l) && x in m && Unchained(m, l)[x].ref == m[x].ref
  {
    BehindDistinct(m, p, l, 0);
    ChainMembers(m, Pb(p), l);
    ChainTail(m, Pb(p), l, 1);
    ChainFrame(m, Unchained(m, l), Pb(l[1]), l[1..]);
  }

  // ---------------------------------------------------------------- pbuf_realloc, step by step

  lemma {:induction false} CutAtNext(m: Mem, l: seq<nat>, rem: nat, i: nat)
    requires l != [] && i <= CutAt(m, l, rem) && forall x :: x in l ==> x in m
    ensures Total(m, l[..i]) <= rem
    ensures i < CutAt(m, l, rem) <==> i + 1 < |l| && rem - Total(m, l[..i]) > |m[l[i]].data|
    decreases |l|
  {
    if i == 0 {
      assert l[..0] == [];
    } else {
      CutAtNext(m, l[1..], rem - |m[l[0]].data|, i - 1);
      assert l[..i][1..] == l[1..][..i - 1];
    }
  }

  /** pbuf_realloc() has stepped over i pbufs. */
  ghost predicate Stepping(m0: Mem, m: Mem, l: seq<nat>, i: nat, rem: int, newLen: u16) {
    && l != [] && l[0] in m0 && i <= CutAt(m0, l, newLen)
    && m == AddTot(m0, l[..i], newLen - m0[l[0]].totLen)
    && rem == newLen - Total(m0, l[..i])
  }

  lemma SteppingNone(m: Mem, l: seq<nat>, newLen: u16)
    requires l != [] && l[0] in m
    ensures Stepping(m, m, l, 0, newLen, newLen)
  {
    assert l[..0] == [];
    assert AddTot(m, [], newLen - m[l[0]].totLen) == m;
  }

  /** The loop of pbuf_realloc() stops at the right pbuf, and never at the end of the chain. */
  lemma SteppingHere(m0: Mem, m: Mem, p: nat, l: seq<nat>, i: nat, rem: int, newLen: u16)
    requires Chain(m0, Pb(p), l) && TotOk(m0, l) && newLen < Total(m0, l) && Stepping(m0, m, l, i, rem, newLen)
    ensures 0 <= rem && l[i] in m && l[i] in m0 && m[l[i]] == m0[l[i]]
    ensures m[l[i]].next == if i + 1 < |l| then Pb(l[i + 1]) else Null
    ensures rem > |m[l[i]].data| <==> i < CutAt(m0, l, newLen)
    ensures i < CutAt(m0, l, newLen) ==>
              var x := m[l[i]].(totLen := Low16(m[l[i]].totLen + (newLen - m0[l[0]].totLen)));
              Stepping(m0, m[l[i] := x], l, i + 1, rem - |m[l[i]].data|, newLen)
  {
    hide AddTot, Flat, Chain, TotOk, CutAt;
    ChainMembers(m0, Pb(p), l);
    CutAtNext(m0, l, newLen, i);
    CutAtExact(m0, l, newLen);
    ChainTail(m0, Pb(p), l, i);
    forall j | 0 <= j < i ensures l[j] != l[i] { ChainDistinct(m0, Pb(p), l, j, i); }
    AddTotOther(m0, l[..i], newLen - m0[l[0]].totLen, l[i]);
    AddTotStep(m0, l, i, newLen - m0[l[0]].totLen);
    TotalNext(m0, l, i);
    FlatAround(m0, l, i);
    if i + 1 == |l| { FlatNone(m0); }
  }

  /** What pbuf_realloc() has done when its loop ends and the last length is set. */
  lemma SteppingEnd(m0: Mem, m: Mem, p: nat, l: seq<nat>, rem: int, newLen: u16)
    requires Chain(m0, Pb(p), l) && TotOk(m0, l) && newLen < Total(m0, l)
    requires Stepping(m0, m, l, CutAt(m0, l, newLen), rem, newLen)
    ensures var i := CutAt(m0, l, newLen);
            && l[i] in m0 && l[i] in m && 0 <= rem <= |m[l[i]].data|
            && m[l[i] := m[l[i]].(data := m[l[i]].data[..rem], totLen := rem)] == Shortened(m0, l, newLen)
  {
    hide AddTot, Flat, Chain, TotOk, CutAt, Low16;
    SteppingHere(m0, m, p, l, CutAt(m0, l, newLen), rem, newLen);
  }

  lemma ShortenedChain(m: Mem, p: nat, l: seq<nat>, newLen: u16)
    requires Chain(m, Pb(p), l) && l != [] && l[0] in m && l[CutAt(m, l, newLen)] in m
    ensures Chain(Shortened(m, l, newLen), Pb(p), l)
    ensures forall x :: x in l ==> x in m && x in Shortened(m, l, newLen) && Shortened(m, l, newLen)[x].ref == m[x].ref
  {
    hide Chain, CutAt, Shortened;
    ChainMembers(m, Pb(p), l);
    ShortenedRefs(m, l, newLen);
    ChainLinks(m, Shortened(m, l, newLen), Pb(p), l);
  }

  lemma ShortenedRefs(m: Mem, l: seq<nat>, newLen: u16)
    requires l != [] && l[0] in m && l[CutAt(m, l, newLen)] in m
    ensures SameRefs(m, Shortened(m, l, newLen))
  {
    hide CutAt, Low16;
  }

  // ---------------------------------------------------------------- pbuf_alloc, step by step

  /** The numbers of the pbufs memp_malloc() hands out are new and different. */
  ghost predicate Unused(m: Mem, ids: seq<nat>) {
    (forall x :: x in ids ==> x !in m) && forall i, j :: 0 <= i < j < |ids| ==> ids[i] != ids[j]
  }

  /** The memory has grown by the first i pbufs of ids. */
  ghost predicate Grown(m0: Mem, m: Mem, ids: seq<nat>, i: nat) {
    && i <= |ids| && (forall x :: x in m <==> x in m0 || x in ids[..i])
    && (forall x :: x in m0 ==> x in m && m[x] == m0[x])
  }

  /** They have one reference each, and their totals count the rem bytes to come. */
  ghost predicate Filling(m: Mem, ids: seq<nat>, i: nat, rem: nat) {
    i <= |ids| && forall j :: 0 <= j < i ==> Fresh(m, ids, j, i, rem)
  }

  ghost predicate Fresh(m: Mem, ids: seq<nat>, j: nat, i: nat, rem: nat)
    requires j < i <= |ids|
  {
    ids[j] in m && m[ids[j]].ref == 1 && m[ids[j]].totLen == rem + Total(m, ids[j..i])
  }

  /** pbuf_alloc() has linked the first i pbufs of ids and has rem bytes to go. */
  ghost predicate Building(m0: Mem, m: Mem, handles: multiset<nat>, ids: seq<nat>, i: nat, rem: nat) {
    && 0 < i <= |ids| && Sound(m, More(handles, ids[0])) && Chain(m, Pb(ids[0]), ids[..i])
    && Grown(m0, m, ids, i) && Filling(m, ids, i, rem)
  }

  lemma FlatOne(m: Mem, x: nat)
    ensures Flat(m, [x]) == if x in m then m[x].data else []
  {
    assert [x][1..] == [];
    assert Flat(m, [x]) == (if x in m then m[x].data else []) + Flat(m, [x][1..]);
  }

  lemma BuildFirst(m: Mem, handles: multiset<nat>, ids: seq<nat>, length: u16, d: seq<byte>)
    requires Sound(m, handles) && Unused(m, ids) && ids != [] && |d| <= length
    ensures Building(m, m[ids[0] := Pbuf(Null, length, 1, d)], handles, ids, 1, length - |d|)
  {
    hide Sound, Flat, Chain, Total, More;
    var b := Pbuf(Null, length, 1, d);
    var n := m[ids[0] := b];
    assert ids[0] in ids;
    NewSound(m, handles, ids[0], b);
    ChainNone(m);
    NewChain(m, Null, [], ids[0], b);
    assert ids[..1] == [ids[0]];
    FirstFresh(m, ids, length, d);
  }

  lemma ChainNone(m: Mem)
    ensures Chain(m, Null, [])
  {
  }

  lemma FirstFresh(m: Mem, ids: seq<nat>, length: u16, d: seq<byte>)
    requires ids != [] && |d| <= length
    ensures Filling(m[ids[0] := Pbuf(Null, length, 1, d)], ids, 1, length - |d|)
  {
    hide Flat;
    var n := m[ids[0] := Pbuf(Null, length, 1, d)];
    assert ids[0..1] == [ids[0]];
    FlatOne(n, ids[0]);
    assert Fresh(n, ids, 0, 1, length - |d|);
  }

  lemma BuildLinks(m: Mem, handles: multiset<nat>, ids: seq<nat>, i: nat, b: Pbuf)
    requires 0 < i < |ids| && Sound(m, handles) && Chain(m, Pb(ids[0]), ids[..i])
    requires ids[i] !in m && b.next == Null && b.ref == 1
    ensures ids[i - 1] in m && m[ids[i - 1]].next == Null
    ensures var n := SetNext(m[ids[i] := b], ids[i - 1], Pb(ids[i]));
            && Sound(n, handles) && Chain(n, Pb(ids[0]), ids[..i + 1])
  {
    hide Sound, Acyclic, More, Chain, SetNext;
    var l := ids[..i];
    ChainTail(m, Pb(ids[0]), l, i - 1);
    NewSound(m, handles, ids[i], b);
    NewChain(m, Pb(ids[0]), l, ids[i], b);
    LinkNew(m[ids[i] := b], handles, ids[0], l, ids[i - 1], ids[i]);
    assert ids[..i + 1] == l + [ids[i]];
  }

  /** Linking a new pbuf q, still held by its allocator, behind the last one of a chain. */
  lemma LinkNew(m: Mem, handles: multiset<nat>, p: nat, l: seq<nat>, x: nat, q: nat)
    requires Sound(m, More(handles, q)) && Chain(m, Pb(p), l) && Chain(m, Pb(q), [q])
    requires l != [] && l[|l| - 1] == x && x != q && x in m && m[x].next == Null
    ensures Sound(SetNext(m, x, Pb(q)), handles) && Chain(SetNext(m, x, Pb(q)), Pb(p), l + [q])
  {
    hide Sound, Acyclic, More, Chain, SetNext;
    MoreAt(handles, q, q);
    LinkSound(m, More(handles, q), x, q, [q]);
    LessMore(handles, q);
    LastOf(m, Pb(p), l, x);
    ChainJoin(m, Pb(p), l, x, Pb(q), [q]);
  }

  lemma NewChain(m: Mem, p: Ptr, l: seq<nat>, q: nat, b: Pbuf)
    requires Chain(m, p, l) && q !in m && b.next == Null
    ensures Chain(m[q := b], p, l) && Chain(m[q := b], Pb(q), [q])
  {
    ChainMembers(m, p, l);
    ChainFrame(m, m[q := b], p, l);
    assert [q][1..] == [];
  }

  /** The memory after one more pbuf. */
  function Extended(m: Mem, ids: seq<nat>, i: nat, rem: u16, d: seq<byte>): Mem
    requires 0 < i < |ids| && ids[i - 1] in m
  {
    SetNext(m[ids[i] := Pbuf(Null, rem, 1, d)], ids[i - 1], Pb(ids[i]))
  }

  lemma BuildFresh(m: Mem, ids: seq<nat>, i: nat, rem: u16, d: seq<byte>, j: nat)
    requires 0 < i < |ids| && j < i && Filling(m, ids, i, rem) && |d| <= rem && ids[i] !in m && ids[i - 1] in m
    ensures Fresh(Extended(m, ids, i, rem, d), ids, j, i + 1, rem - |d|)
  {
    hide Flat;
    var n := Extended(m, ids, i, rem, d);
    assert Fresh(m, ids, j, i, rem);
    forall k | j <= k < i ensures ids[k] in m { assert Fresh(m, ids, k, i, rem); }
    assert ids[j..i + 1] == ids[j..i] + [ids[i]];
    FlatJoin(n, ids[j..i], [ids[i]]);
    FlatFrame(m, n, ids[j..i]);
    FlatOne(n, ids[i]);
  }

  lemma BuildGrown(m0: Mem, m: Mem, ids: seq<nat>, i: nat, rem: u16, d: seq<byte>)
    requires 0 < i < |ids| && Grown(m0, m, ids, i) && Unused(m0, ids) && ids[i - 1] in m
    ensures Grown(m0, Extended(m, ids, i, rem, d), ids, i + 1)
  {
    assert ids[i - 1] in ids && ids[i] in ids;
    assert ids[..i + 1] == ids[..i] + [ids[i]];
  }

  lemma BuildNext(m0: Mem, m: Mem, handles: multiset<nat>, ids: seq<nat>, i: nat, rem: u16, d: seq<byte>)
    requires Building(m0, m, handles, ids, i, rem) && Unused(m0, ids) && i < |ids| && |d| <= rem
    ensures ids[i] !in m && ids[i - 1] in m
    ensures Building(m0, Extended(m, ids, i, rem, d), handles, ids, i + 1, rem - |d|)
  {
    BuildNew(m0, m, ids, i);
    hide Sound, Chain, Filling, Grown, Extended, Unused;
    ChainTail(m, Pb(ids[0]), ids[..i], i - 1);
    BuildGrown(m0, m, ids, i, rem, d);
    BuildFilling(m, ids, i, rem, d);
    BuildMore(m, More(handles, ids[0]), ids, i, rem, d);
  }

  lemma BuildMore(m: Mem, handles: multiset<nat>, ids: seq<nat>, i: nat, rem: u16, d: seq<byte>)
    requires 0 < i < |ids| && Sound(m, handles) && Chain(m, Pb(ids[0]), ids[..i]) && ids[i] !in m && ids[i - 1] in m
    ensures Sound(Extended(m, ids, i, rem, d), handles) && Chain(Extended(m, ids, i, rem, d), Pb(ids[0]), ids[..i + 1])
  {
    hide Sound, Chain, SetNext;
    BuildLinks(m, handles, ids, i, Pbuf(Null, rem, 1, d));
  }

  lemma BuildNew(m0: Mem, m: Mem, ids: seq<nat>, i: nat)
    requires Grown(m0, m, ids, i) && Unused(m0, ids) && i < |ids|
    ensures ids[i] !in m
  {
    assert ids[i] in ids;
  }

  lemma BuildFilling(m: Mem, ids: seq<nat>, i: nat, rem: u16, d: seq<byte>)
    requires 0 < i < |ids| && Filling(m, ids, i, rem) && |d| <= rem && ids[i] !in m && ids[i - 1] in m
    ensures Filling(Extended(m, ids, i, rem, d), ids, i + 1, rem - |d|)
  {
    hide Fresh, Extended;
    var k, r := i + 1, rem - |d|;
    forall j | 0 <= j < k ensures Fresh(Extended(m, ids, i, rem, d), ids, j, k, r) {
      if j < i { BuildFresh(m, ids, i, rem, d, j); } else { BuildLast(m, ids, i, rem, d); }
    }
  }

  lemma BuildLast(m: Mem, ids: seq<nat>, i: nat, rem: u16, d: seq<byte>)
    requires 0 < i < |ids| && |d| <= rem && ids[i] !in m && ids[i - 1] in m
    ensures Fresh(Extended(m, ids, i, rem, d), ids, i, i + 1, rem - |d|)
  {
    hide Flat;
    assert ids[i..i + 1] == [ids[i]];
    FlatOne(Extended(m, ids, i, rem, d), ids[i]);
  }

  /** A chain of pbufs with one reference each is freed altogether. */
  lemma BuiltFree(m0: Mem, m: Mem, handles: multiset<nat>, ids: seq<nat>, i: nat, rem: nat)
    requires Building(m0, m, handles, ids, i, rem) && Unused(m0, ids)
    ensures Released(m, ids[..i]) == m0
  {
    hide Sound, Chain, Flat;
    forall j | 0 <= j < i ensures ids[j] in m && m[ids[j]].ref == 1 { assert Fresh(m, ids, j, i, rem); }
    RunAll(m, ids[..i]);
    assert ids[..i][..i] == ids[..i];
    assert forall x :: x in ids[..i] ==> x in ids;
    assert m - Elements(ids[..i]) == m0;
  }

  lemma {:induction false} RunAll(m: Mem, l: seq<nat>)
    requires forall j :: 0 <= j < |l| ==> l[j] in m && m[l[j]].ref == 1
    ensures RunLength(m, l) == |l|
    decreases |l|
  {
    if l != [] { RunAll(m, l[1..]); }
  }

  lemma BuiltOk(m0: Mem, m: Mem, handles: multiset<nat>, ids: seq<nat>, i: nat)
    requires Building(m0, m, handles, ids, i, 0)
    ensures TotOk(m, ids[..i])
  {
    hide Flat, Sound, Chain;
    forall j | 0 <= j < i ensures ids[j] in m && m[ids[j]].totLen == Total(m, ids[..i][j..]) {
      assert Fresh(m, ids, j, i, 0);
      assert ids[..i][j..] == ids[j..i];
    }
  }

  /** How many more pbufs of the pool rem bytes take. */
  function Buffers(rem: nat, bufsize: nat): nat
    requires bufsize > 0
  {
    if rem == 0 then 0 else if rem <= bufsize then 1 else 1 + Buffers(rem - bufsize, bufsize)
  }

  /** As few as hold them. */
  lemma {:induction false} BuffersExact(rem: nat, bufsize: nat)
    requires bufsize > 0
    ensures Buffers(rem, bufsize) == 0 <==> rem == 0
    ensures rem > 0 ==> (Buffers(rem, bufsize) - 1) * bufsize < rem <= Buffers(rem, bufsize) * bufsize
  {
    if rem > bufsize {
      BuffersExact(rem - bufsize, bufsize);
      var n := Buffers(rem - bufsize, bufsize);
      OneMore(n, bufsize);
      OneMore(n - 1, bufsize);
    }
  }

  lemma OneMore(n: nat, bufsize: nat)
    ensures (n + 1) * bufsize == n * bufsize + bufsize
  {
  }

  /** The first k pbufs are filled: the first one with what fits of the whole length, each other with no
      more than fits, and all but the last to the brim. */
  ghost predicate Sized(m: Mem, ids: seq<nat>, k: nat, first: nat, bufsize: nat, length: nat) {
    && 0 < k <= |ids| && ids[0] in m && |m[ids[0]].data| == (if length < first then length else first)
    && forall j :: 0 < j < k ==> ids[j] in m && 0 < |m[ids[j]].data| <= bufsize && (j < k - 1 ==> |m[ids[j]].data| == bufsize)
  }

  lemma SizedFirst(m: Mem, ids: seq<nat>, first: nat, bufsize: nat, length: nat)
    requires ids != [] && ids[0] in m && |m[ids[0]].data| == if length < first then length else first
    ensures Sized(m, ids, 1, first, bufsize, length)
  {
  }

  lemma SizedOn(m: Mem, ids: seq<nat>, i: nat, rem: u16, d: seq<byte>, first: nat, bufsize: nat, length: nat)
    requires Sized(m, ids, i, first, bufsize, length) && 0 < i < |ids| && ids[i] !in m && ids[i - 1] in m
    requires 0 < |d| <= bufsize && (i > 1 ==> |m[ids[i - 1]].data| == bufsize)
    ensures Sized(Extended(m, ids, i, rem, d), ids, i + 1, first, bufsize, length)
    ensures ids[i] in Extended(m, ids, i, rem, d) && Extended(m, ids, i, rem, d)[ids[i]].data == d
  {
  }

  lemma BuiltRefs(m0: Mem, m: Mem, handles: multiset<nat>, ids: seq<nat>, i: nat, rem: nat)
    requires Building(m0, m, handles, ids, i, rem)
    ensures forall x :: x in ids[..i] && x in m ==> m[x].ref > 0
  {
    hide Sound, Chain, Flat;
    forall x | x in ids[..i] ensures x in m && m[x].ref > 0 {
      var j :| 0 <= j < i && ids[j] == x;
      assert Fresh(m, ids, j, i, rem);
    }
  }

  /** The totals say that all the bytes are there: the first one is the whole length. */
  lemma BuiltTotal(m0: Mem, m: Mem, handles: multiset<nat>, ids: seq<nat>, i: nat)
    requires Building(m0, m, handles, ids, i, 0)
    ensures ids[0] in m && m[ids[0]].totLen == Total(m, ids[..i])
  {
    hide Sound, Chain, Flat;
    assert Fresh(m, ids, 0, i, 0);
    assert ids[0..i] == ids[..i];
  }
}
