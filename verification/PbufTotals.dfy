/** The cached total lengths over runs of calls into lwip/core/pbuf.c. */
module PbufTotals {
  import opened SeqNum
  import opened PbufGraph
  import opened PbufData
  import opened PbufRuns

  /** tot_len of pbuf p is its own length and the tot_len of the next one. */
  ghost predicate Adds(m: Mem, p: nat)
    requires p in m
  {
    var next := m[p].next;
    m[p].totLen == |m[p].data| + if next.Pb? && next.id in m then m[next.id].totLen else 0
  }

  ghost predicate Tidy(m: Mem) { forall p: nat :: p in m ==> Adds(m, p) }

  /** Only pbufs of l point to pbufs of l. */
  ghost predicate Unshared(m: Mem, l: seq<nat>) {
    forall y: nat :: y in m && y !in l && m[y].next.Pb? ==> m[y].next.id !in l
  }

  /** What keeps the totals right: nobody else points into the part of a chain whose totals change, and
      what is joined is shorter than 2^16. */
  ghost predicate Neat(s: State, c: Call) {
    match c
    case Alloc(x, b) => b.totLen == |b.data|
    case Concat(h, t, l, k) => NeatJoin(s.m, l, k)
    case Attach(h, t, l, k) => NeatJoin(s.m, l, k)
    case Dechain(p, l) => |l| > 1 && Total(s.m, l[1..]) > 0 ==> Unshared(s.m, l[..1])
    case Shrink(p, newLen, l) => l != [] && newLen < Total(s.m, l) ==> Unshared(s.m, l[..CutAt(s.m, l, newLen) + 1])
    case _ => true
  }

  ghost predicate NeatJoin(m: Mem, l: seq<nat>, k: seq<nat>) {
    Total(m, l) + Total(m, k) < 0x1_0000 && (Total(m, k) > 0 ==> Unshared(m, l))
  }

  ghost predicate AllNeat(calls: seq<Call>) {
    calls == [] || (AllNeat(calls[..|calls| - 1]) && Neat(Run(calls[..|calls| - 1]), calls[|calls| - 1]))
  }

  /** In every chain each total is the number of bytes from there on. */
  lemma {:induction false} TidyTot(m: Mem, p: Ptr, l: seq<nat>)
    requires Tidy(m) && Chain(m, p, l)
    ensures TotOk(m, l) && (p.Pb? ==> p.id in m && m[p.id].totLen == Total(m, l))
    decreases |l|
  {
    if l != [] {
      ChainTail(m, p, l, 0);
      var q := m[l[0]].next;
      TidyTot(m, q, l[1..]);
      assert Adds(m, l[0]);
      TotCons(m, l);
    }
  }

  lemma TotCons(m: Mem, l: seq<nat>)
    requires l != [] && l[0] in m && TotOk(m, l[1..]) && m[l[0]].totLen == Total(m, l)
    ensures TotOk(m, l)
  {
    forall i | 0 <= i < |l| ensures l[i] in m && m[l[i]].totLen == Total(m, l[i..]) {
      if i > 0 { assert l[1..][i - 1] == l[i] && l[1..][i - 1..] == l[i..]; } else { assert l[0..] == l; }
    }
  }

  /** The other way round. */
  lemma TotAdds(m: Mem, p: Ptr, l: seq<nat>, i: nat)
    requires Chain(m, p, l) && TotOk(m, l) && i < |l|
    ensures l[i] in m && Adds(m, l[i])
  {
    FlatFirst(m, p, l, i);
    if i + 1 == |l| { assert l[i + 1..] == []; }
  }

  ghost predicate SameAs(a: Pbuf, b: Pbuf) {
    a.next == b.next && a.data == b.data && a.totLen == b.totLen
  }

  /** Pbufs outside c that point to one of c find its total unchanged. */
  ghost predicate Undisturbed(m: Mem, n: Mem, c: seq<nat>) {
    forall y: nat :: y in n && y !in c && n[y].next.Pb? && n[y].next.id in c ==>
      n[y].next.id in n && n[y].next.id in m && n[n[y].next.id].totLen == m[n[y].next.id].totLen
  }

  /** A change inside c, after which the totals in c are right, keeps all of them right exactly when
      those who point into c do not notice. */
  lemma TidyExact(m: Mem, n: Mem, c: seq<nat>)
    requires Tidy(m) && Acyclic(n) && forall x :: x in c ==> x in m
    requires forall y: nat :: y in n && y !in c ==> y in m && SameAs(n[y], m[y])
    requires forall y: nat :: y in n && y in c ==> Adds(n, y)
    ensures Tidy(n) <==> Undisturbed(m, n, c)
  {
    hide Acyclic;
    forall y: nat | y in n && y !in c
      ensures Adds(n, y) <==> (n[y].next.Pb? && n[y].next.id in c ==>
              n[y].next.id in n && n[y].next.id in m && n[n[y].next.id].totLen == m[n[y].next.id].totLen)
    {
      assert Adds(m, y) && SameAs(n[y], m[y]);
      if n[y].next.Pb? {
        NoDangling(n, y);
        assert n[y].next.id !in c ==> SameAs(n[n[y].next.id], m[n[y].next.id]);
      }
    }
  }

  lemma ReleasedSame(m: Mem, l: seq<nat>, y: nat)
    requires y in Released(m, l)
    ensures y in m && SameAs(Released(m, l)[y], m[y])
  {
  }

  lemma FreeTidy(m: Mem, l: seq<nat>)
    requires Tidy(m) && Acyclic(Released(m, l))
    ensures Tidy(Released(m, l))
  {
    hide Released, Acyclic, SameAs, Tidy;
    var n := Released(m, l);
    forall y: nat | y in n ensures y in m && SameAs(n[y], m[y]) { ReleasedSame(m, l, y); }
    TidyExact(m, n, []);
  }

  lemma CatSame(m: Mem, l: seq<nat>, t: nat, y: nat)
    requires l != [] && l[|l| - 1] in m && t in m && y in m && y !in l
    ensures y in Cat(m, l, t) && Cat(m, l, t)[y] == m[y]
  {
  }

  /** How the totals of the head chain change. */
  lemma CatChanged(m: Mem, l: seq<nat>, t: nat, k: seq<nat>, x: nat)
    requires l != [] && l[|l| - 1] in m && t in m && k != [] && k[0] == t && TotOk(m, l) && TotOk(m, k) && x in l
    requires (forall y :: y in l ==> y !in k) && Total(m, l) + Total(m, k) < 0x1_0000
    ensures x in m && x in Cat(m, l, t) && Cat(m, l, t)[x].totLen == m[x].totLen + Total(m, k)
  {
    CatTotals(m, l, t, k);
    hide Cat, Flat, Low16;
    var i :| 0 <= i < |l| && l[i] == x;
    FlatSplit(m, l, i);
    Low16Small(Total(m, l[i..]) + Total(m, k));
  }

  lemma CatTidy(m: Mem, h: nat, l: seq<nat>, t: nat, k: seq<nat>)
    requires Tidy(m) && Chain(m, Pb(h), l) && Chain(m, Pb(t), k) && l != [] && l[|l| - 1] in m && t in m
    requires (forall x :: x in l ==> x !in k)
    requires Acyclic(Cat(m, l, t)) && Chain(Cat(m, l, t), Pb(h), l + k)
    ensures Tidy(Cat(m, l, t)) <==> NeatJoin(m, l, k)
  {
    hide Cat, Acyclic, Chain, Flat, TotOk, Tidy, Adds, SameAs, Unshared, Undisturbed;
    var n := Cat(m, l, t);
    TidyTot(m, Pb(h), l);
    TidyTot(m, Pb(t), k);
    CatData(m, h, l, t, k);
    CatKeys(m, l, t);
    ChainStart(m, Pb(h), l);
    ChainStart(m, Pb(t), k);
    if Total(m, l) + Total(m, k) >= 0x1_0000 {
      if Tidy(n) { TidyTot(n, Pb(h), l + k); }
    } else {
      forall y: nat | y in n && y in l ensures Adds(n, y) {
        var i :| 0 <= i < |l| && l[i] == y;
        TotAdds(n, Pb(h), l + k, i);
      }
      forall y: nat | y in n && y !in l ensures y in m && SameAs(n[y], m[y]) {
        CatSame(m, l, t, y);
        Reflexive(m[y]);
      }
      TidyExact(m, n, l);
      forall x | x in l ensures x in m && x in n && n[x].totLen == m[x].totLen + Total(m, k) { CatChanged(m, l, t, k, x); }
      Noticed(m, n, l, Total(m, k));
    }
  }

  /** When all totals in l have grown by d, those outside notice unless d is 0. */
  lemma Noticed(m: Mem, n: Mem, l: seq<nat>, d: nat)
    requires n.Keys == m.Keys && forall x :: x in l ==> x in m && x in n && n[x].totLen == m[x].totLen + d
    requires forall y: nat :: y in n && y !in l ==> y in m && SameAs(n[y], m[y])
    ensures Undisturbed(m, n, l) <==> (d > 0 ==> Unshared(m, l))
  {
    if d > 0 && !Unshared(m, l) {
      var y: nat :| y in m && y !in l && m[y].next.Pb? && m[y].next.id in l;
      assert y in n && SameAs(n[y], m[y]);
    }
  }

  lemma Reflexive(a: Pbuf)
    ensures SameAs(a, a)
  {
  }

  lemma RefTidy(m: Mem, p: nat)
    requires Tidy(m) && p in m && Acyclic(Ref(m, p))
    ensures Tidy(Ref(m, p))
  {
    hide Acyclic;
    TidyExact(m, Ref(m, p), []);
  }

  /** Pbufs outside the chain are still there after its tail was freed. */
  lemma Survives(m: Mem, l: seq<nat>, r: seq<nat>, y: nat)
    requires |l| > 1 && l[0] in m && l[1] in m && y in m && y !in l && y !in r
    ensures y in Released(Unchained(m, l), r)
  {
    hide Released, Low16;
    ReleasedKeeps(Unchained(m, l), r, y);
  }

  lemma DechainTidy(m: Mem, p: nat, l: seq<nat>)
    requires Tidy(m) && Chain(m, Pb(p), l) && |l| > 1 && l[0] in m && l[1] in m
    requires Acyclic(Released(Unchained(m, l), l[1..]))
    ensures Tidy(Released(Unchained(m, l), l[1..])) <==> (Total(m, l[1..]) > 0 ==> Unshared(m, l[..1]))
  {
    hide Released, Unchained, Acyclic, Chain, Flat, TotOk, Tidy, Adds, SameAs, Unshared, Undisturbed;
    var k := Unchained(m, l);
    var n := Released(k, l[1..]);
    TidyTot(m, Pb(p), l);
    DechainHead(m, p, l);
    DechainTotals(m, p, l);
    assert l[..1] == [p];
    ChainStart(m, Pb(p), l);
    forall y: nat | y in n ensures y != p ==> y in m && SameAs(n[y], m[y]) {
      ReleasedSame(k, l[1..], y);
      if y != p { UnchainedSame(m, p, l, y); Chained(n[y], k[y], m[y]); }
    }
    BehindDistinct(m, p, l, 0);
    ReleasedKeeps(k, l[1..], p);
    LastAdds(n, k, p);
    TidyExact(m, n, [p]);
    forall y: nat | y in m && y !in [p] && m[y].next == Pb(p) ensures y in n {
      OutsideChain(m, p, l, 0, y);
      Survives(m, l, l[1..], y);
    }
    HeadNoticed(m, n, p);
  }

  lemma HeadNoticed(m: Mem, n: Mem, p: nat)
    requires p in m && p in n && forall y: nat :: y in n && y != p ==> y in m && SameAs(n[y], m[y])
    requires forall y: nat :: y in m && y !in [p] && m[y].next == Pb(p) ==> y in n
    ensures Undisturbed(m, n, [p]) <==> (n[p].totLen != m[p].totLen ==> Unshared(m, [p]))
  {
    if n[p].totLen != m[p].totLen && !Unshared(m, [p]) {
      var y: nat :| y in m && y !in [p] && m[y].next.Pb? && m[y].next.id in [p];
      assert y in n && SameAs(n[y], m[y]);
    }
  }

  /** Who points to one of the first pbufs of a chain, and is none of them, is not in the chain. */
  lemma OutsideChain(m: Mem, p: nat, l: seq<nat>, i: nat, y: nat)
    requires Chain(m, Pb(p), l) && i < |l| && y in m && y !in l[..i + 1] && m[y].next.Pb? && m[y].next.id in l[..i + 1]
    ensures y !in l
  {
    var c := l[..i + 1];
    if y in l {
      var j :| 0 <= j < |l| && l[j] == y;
      FlatFirst(m, Pb(p), l, j);
      var k :| 0 <= k < |c| && c[k] == m[y].next.id;
      assert j > i by { assert forall k :: 0 <= k <= i ==> l[k] == c[k]; }
      ChainDistinct(m, Pb(p), l, k, j + 1);
    }
  }

  lemma Chained(a: Pbuf, b: Pbuf, c: Pbuf)
    requires SameAs(a, b) && SameAs(b, c)
    ensures SameAs(a, c)
  {
  }

  lemma LastAdds(n: Mem, k: Mem, p: nat)
    requires p in n && p in k && SameAs(n[p], k[p]) && k[p].next == Null && k[p].totLen == |k[p].data|
    ensures Adds(n, p)
  {
  }

  lemma UnchainedSame(m: Mem, p: nat, l: seq<nat>, y: nat)
    requires Chain(m, Pb(p), l) && |l| > 1 && TotOk(m, l) && l[0] in m && l[1] in m && y in Unchained(m, l) && y != p
    ensures y in m && SameAs(Unchained(m, l)[y], m[y])
  {
    hide Chain, TotOk, Flat, Low16;
    DechainTotals(m, p, l);
  }

  /** Truncation makes all totals smaller, up to the pbuf it cuts. */
  lemma ShorterTotals(m: Mem, n: Mem, l: seq<nat>, c: seq<nat>, x: nat, newLen: nat)
    requires c <= l && TotOk(m, l) && TotOk(n, c) && newLen < Total(m, l) && Flat(n, c) == Flat(m, l)[..newLen] && x in c
    requires forall j :: 0 <= j < |c| - 1 ==> l[j] in m && l[j] in n && n[l[j]].data == m[l[j]].data
    ensures x in m && x in n && n[x].totLen < m[x].totLen
  {
    hide Flat, TotOk;
    var j :| 0 <= j < |c| && c[j] == x;
    assert l[j] == x && c[..j] == l[..j];
    TotAt(m, l, j);
    TotAt(n, c, j);
    FlatSplit(m, l, j);
    FlatSplit(n, c, j);
    FlatFrame(m, n, l[..j]);
  }

  lemma TotAt(m: Mem, l: seq<nat>, j: nat)
    requires TotOk(m, l) && j < |l|
    ensures l[j] in m && m[l[j]].totLen == Total(m, l[j..])
  {
  }

  lemma ReallocKeeps(m: Mem, p: nat, l: seq<nat>, newLen: u16, y: nat)
    requires Chain(m, Pb(p), l) && TotOk(m, l) && newLen < Total(m, l) && l[CutAt(m, l, newLen)] in m
    requires y in m && y !in l[CutAt(m, l, newLen) + 1..]
    ensures l[0] in m && y in Realloc(m, l, newLen)
    ensures y !in l[CutAt(m, l, newLen)..] ==> Realloc(m, l, newLen)[y].data == m[y].data
  {
    hide Released, CutAt, Flat, Chain, Low16;
    var i := CutAt(m, l, newLen);
    TotHead(m, l);
    assert l[i] == l[i..][0] && l[i] in l[i..];
    var k := Shortened(m, l, newLen);
    ReleasedKeeps(k, l[i + 1..], y);
  }

  lemma ShrinkTidy(m: Mem, p: nat, l: seq<nat>, newLen: u16)
    requires Tidy(m) && Chain(m, Pb(p), l) && p in m && l != [] && l[0] in m && l[CutAt(m, l, newLen)] in m
    requires Acyclic(Realloc(m, l, newLen))
    ensures Tidy(Realloc(m, l, newLen)) <==>
              (newLen < Total(m, l) ==> Unshared(m, l[..CutAt(m, l, newLen) + 1]))
  {
    hide Realloc, CutAt, Acyclic, Chain, Flat, TotOk, Tidy, Adds, SameAs, Unshared, Undisturbed;
    TidyTot(m, Pb(p), l);
    ChainStart(m, Pb(p), l);
    var n, i := Realloc(m, l, newLen), CutAt(m, l, newLen);
    if newLen >= m[l[0]].totLen {
      ReallocNone(m, l, newLen);
    } else {
      ReallocData(m, p, l, newLen);
      var c := l[..i + 1];
      forall y: nat | y in n && y in c ensures Adds(n, y) {
        var j :| 0 <= j < |c| && c[j] == y;
        TotAdds(n, Pb(p), c, j);
      }
      forall y: nat | y in n && y !in c ensures y in m && SameAs(n[y], m[y]) { ReallocSame(m, l, newLen, y); }
      TidyExact(m, n, c);
      ShrinkNotices(m, p, l, newLen);
    }
  }

  lemma ShrinkNotices(m: Mem, p: nat, l: seq<nat>, newLen: u16)
    requires Chain(m, Pb(p), l) && TotOk(m, l) && newLen < Total(m, l) && l[CutAt(m, l, newLen)] in m && l[0] in m
    requires forall y: nat :: y in Realloc(m, l, newLen) && y !in l[..CutAt(m, l, newLen) + 1]
                              ==> y in m && SameAs(Realloc(m, l, newLen)[y], m[y])
    ensures Undisturbed(m, Realloc(m, l, newLen), l[..CutAt(m, l, newLen) + 1]) <==> Unshared(m, l[..CutAt(m, l, newLen) + 1])
  {
    hide Realloc, CutAt, Chain, Flat, TotOk;
    var n, i := Realloc(m, l, newLen), CutAt(m, l, newLen);
    var c := l[..i + 1];
    ReallocData(m, p, l, newLen);
    ChainStart(m, Pb(p), l);
    BehindDistinct(m, p, l, i);
    assert forall x :: x in c ==> x in l && x !in l[i + 1..];
    forall j | 0 <= j < i ensures l[j] in m && l[j] in n && n[l[j]].data == m[l[j]].data {
      assert c[j] == l[j];
      NotBehind(m, p, l, i, j);
      ReallocKeeps(m, p, l, newLen, l[j]);
    }
    forall x | x in c ensures x in m && x in n && n[x].totLen < m[x].totLen { ShorterTotals(m, n, l, c, x, newLen); }
    if !Unshared(m, c) {
      var y: nat :| y in m && y !in c && m[y].next.Pb? && m[y].next.id in c;
      OutsideChain(m, p, l, i, y);
      ReallocKeeps(m, p, l, newLen, y);
      assert SameAs(n[y], m[y]);
    }
  }

  lemma NotBehind(m: Mem, p: nat, l: seq<nat>, i: nat, j: nat)
    requires Chain(m, Pb(p), l) && j < i < |l|
    ensures l[j] !in l[i..]
  {
    if l[j] in l[i..] {
      var k :| 0 <= k < |l[i..]| && l[i..][k] == l[j];
      ChainDistinct(m, Pb(p), l, j, i + k);
    }
  }

  lemma ReallocNone(m: Mem, l: seq<nat>, newLen: u16)
    requires l != [] && l[0] in m && l[CutAt(m, l, newLen)] in m && newLen >= m[l[0]].totLen
    ensures Realloc(m, l, newLen) == m
  {
  }

  lemma ReallocSame(m: Mem, l: seq<nat>, newLen: u16, y: nat)
    requires l != [] && l[0] in m && l[CutAt(m, l, newLen)] in m
    requires y in Realloc(m, l, newLen) && y !in l[..CutAt(m, l, newLen) + 1]
    ensures y in m && SameAs(Realloc(m, l, newLen)[y], m[y])
  {
    hide Released, CutAt, Low16, Flat;
    var i := CutAt(m, l, newLen);
    assert l[i] in l[..i + 1] && forall x :: x in l[..i] ==> x in l[..i + 1];
    if newLen < m[l[0]].totLen {
      var k := Shortened(m, l, newLen);
      ReleasedSame(k, l[i + 1..], y);
    }
  }

  lemma JoinTidy(m: Mem, handles: multiset<nat>, h: nat, t: nat, l: seq<nat>, k: seq<nat>)
    requires Sound(m, handles) && Tidy(m) && t in handles && Joins(m, h, t, l, k)
    ensures l != [] && l[|l| - 1] in m && t in m
    ensures Tidy(Cat(m, l, t)) <==> NeatJoin(m, l, k)
    ensures Tidy(Attached(m, l, t)) <==> NeatJoin(m, l, k)
  {
    hide Chain, Tidy, Unshared, Cat, Flat, Less, Acyclic, Counted, NeatJoin;
    CatSound(m, handles, h, l, t, k);
    CatTidy(m, h, l, t, k);
    CatRef(m, l, t);
    RefTidyExact(Cat(m, l, t), t);
  }

  /** One call keeps all totals right exactly when it is neat. */
  lemma StepTidy(s: State, c: Call)
    requires Sound(s.m, s.handles) && Allowed(s, c) && Tidy(s.m)
    ensures Tidy(Step(s, c).m) <==> Neat(s, c)
  {
    hide Chain, Tidy, Unshared, Released, Cat, Attached, Dechained, Shrunk, Flat, More, Less, CutAt, Sound, Acyclic, Joins, Ref, NeatJoin;
    StepSound(s, c);
    SoundAcyclic(Step(s, c).m, Step(s, c).handles);
    SoundAcyclic(s.m, s.handles);
    match c
    case Alloc(x, b) => AllocTidy(s.m, s.handles, x, b);
    case Take(p) => RefTidy(s.m, p);
    case Free(p, l) => FreeTidy(s.m, l);
    case Concat(h, t, l, k) => JoinTidy(s.m, s.handles, h, t, l, k);
    case Attach(h, t, l, k) => JoinTidy(s.m, s.handles, h, t, l, k);
    case Dechain(p, l) => SplitTidy(s.m, p, l);
    case Shrink(p, newLen, l) => CutTidy(s.m, p, l, newLen);
  }

  lemma SoundAcyclic(m: Mem, handles: multiset<nat>)
    requires Sound(m, handles)
    ensures Acyclic(m)
  {
  }

  lemma SplitTidy(m: Mem, p: nat, l: seq<nat>)
    requires Tidy(m) && p in m && Chain(m, Pb(p), l) && Acyclic(Dechained(m, l))
    ensures Tidy(Dechained(m, l)) <==> (|l| > 1 && Total(m, l[1..]) > 0 ==> Unshared(m, l[..1]))
  {
    hide Chain, Tidy, Unshared, Released, Unchained, Flat, Acyclic;
    ChainStart(m, Pb(p), l);
    if |l| > 1 {
      assert l[1] in l;
      DechainTidy(m, p, l);
    }
  }

  lemma CutTidy(m: Mem, p: nat, l: seq<nat>, newLen: u16)
    requires Tidy(m) && p in m && Chain(m, Pb(p), l) && Acyclic(Shrunk(m, l, newLen))
    ensures Tidy(Shrunk(m, l, newLen))
            <==> (l != [] && newLen < Total(m, l) ==> Unshared(m, l[..CutAt(m, l, newLen) + 1]))
  {
    hide Chain, Tidy, Unshared, Realloc, CutAt, Flat, Acyclic;
    ChainStart(m, Pb(p), l);
    assert l[CutAt(m, l, newLen)] in l;
    ShrinkTidy(m, p, l, newLen);
  }

  lemma RefTidyExact(m: Mem, p: nat)
    requires p in m
    ensures Tidy(Ref(m, p)) <==> Tidy(m)
  {
    var n := Ref(m, p);
    forall y: nat | y in m ensures Adds(n, y) <==> Adds(m, y) { }
  }

  lemma AllocTidy(m: Mem, handles: multiset<nat>, x: nat, b: Pbuf)
    requires Sound(m, handles) && Tidy(m) && x !in m && b.next == Null
    ensures Tidy(m[x := b]) <==> b.totLen == |b.data|
  {
    hide Counted, Acyclic;
    var n := m[x := b];
    assert Adds(n, x) <==> b.totLen == |b.data|;
    forall p: nat | p in n && p != x ensures Adds(n, p) {
      assert Adds(m, p);
      if m[p].next.Pb? { NoDangling(m, p); }
    }
  }

  /** Over every run of neat calls tot_len is the number of bytes from each pbuf on, in every chain. */
  lemma RunTotals(calls: seq<Call>, p: Ptr, l: seq<nat>)
    requires AllAllowed(calls) && AllNeat(calls) && Chain(Run(calls).m, p, l)
    ensures TotOk(Run(calls).m, l)
  {
    hide Chain, Tidy, TotOk, AllAllowed, AllNeat, Run;
    RunTidy(calls);
    RunTidyNow(calls);
    TidyTot(Run(calls).m, p, l);
  }

  /** The totals are right after every call of the run. */
  ghost predicate AlwaysTidy(calls: seq<Call>) {
    Tidy(Run(calls).m) && (calls == [] || AlwaysTidy(calls[..|calls| - 1]))
  }

  lemma RunTidyNow(calls: seq<Call>)
    requires AlwaysTidy(calls)
    ensures Tidy(Run(calls).m)
  {
  }

  /** Over every run the totals stay right all along exactly when all its calls are neat. */
  lemma {:induction false} RunTidy(calls: seq<Call>)
    requires AllAllowed(calls)
    ensures AlwaysTidy(calls) <==> AllNeat(calls)
    decreases |calls|
  {
    hide Step, Allowed, Neat, Sound, Adds;
    if calls != [] {
      var before := calls[..|calls| - 1];
      RunTidy(before);
      RunSound(before);
      if Tidy(Run(before).m) { StepTidy(Run(before), calls[|calls| - 1]); }
    }
  }

  // ---------------------------------------------------------------- a run that is not neat

  lemma CallOn(calls: seq<Call>, c: Call)
    ensures Run(calls + [c]) == Step(Run(calls), c)
    ensures AllAllowed(calls + [c]) <==> AllAllowed(calls) && Allowed(Run(calls), c)
  {
    assert (calls + [c])[..|calls|] == calls;
    hide Step, Allowed;
  }

  function One(z: byte): Pbuf { Pbuf(Null, 1, 1, [z]) }

  /** Four pbufs of one byte. */
  function FourAllocs(z: byte): seq<Call> {
    [] + [Alloc(0, One(z))] + [Alloc(1, One(z))] + [Alloc(2, One(z))] + [Alloc(3, One(z))]
  }

  lemma FourThere(z: byte)
    ensures AllAllowed(FourAllocs(z))
    ensures var s := Run(FourAllocs(z));
            s.m == map[0 := One(z), 1 := One(z), 2 := One(z), 3 := One(z)] && s.handles == multiset{0, 1, 2, 3}
  {
    CallOn([], Alloc(0, One(z)));
    CallOn([] + [Alloc(0, One(z))], Alloc(1, One(z)));
    CallOn([] + [Alloc(0, One(z))] + [Alloc(1, One(z))], Alloc(2, One(z)));
    CallOn([] + [Alloc(0, One(z))] + [Alloc(1, One(z))] + [Alloc(2, One(z))], Alloc(3, One(z)));
  }

  lemma AttachOne(s: State, h: nat, z: byte)
    requires h != 2 && h in s.m && 2 in s.m && s.m[h] == One(z) && s.m[2].next == Null && s.m[2].totLen == 1
    requires s.m[2].ref < 0xFFFF && 2 in s.handles
    ensures Allowed(s, Attach(h, 2, [h], [2]))
    ensures Step(s, Attach(h, 2, [h], [2]))
            == State(s.m[h := Pbuf(Pb(2), 2, 1, [z])][2 := s.m[2].(ref := s.m[2].ref + 1)], s.handles)
  {
    assert [h][1..] == [] && [2][1..] == [];
    var n := AddTot(s.m, [h], 1);
    assert n == s.m[h := s.m[h].(totLen := 2)];
  }

  /** Two chains get the same tail, and then that tail is extended by pbuf_cat(): both heads keep a
      tot_len of two bytes although there are three. */
  lemma SharedTotals(z: byte)
    ensures var calls := FourAllocs(z) + [Attach(0, 2, [0], [2])] + [Attach(1, 2, [1], [2])] + [Concat(2, 3, [2], [3])];
            var m := Run(calls).m;
            && AllAllowed(calls) && Chain(m, Pb(0), [0, 2, 3])
            && 0 in m && m[0].totLen == 2 && Total(m, [0, 2, 3]) == 3
  {
    hide Run, AllAllowed;
    FourThere(z);
    var s := Run(FourAllocs(z));
    AttachOne(s, 0, z);
    var a := FourAllocs(z) + [Attach(0, 2, [0], [2])];
    CallOn(FourAllocs(z), Attach(0, 2, [0], [2]));
    AttachOne(Run(a), 1, z);
    var b := a + [Attach(1, 2, [1], [2])];
    CallOn(a, Attach(1, 2, [1], [2]));
    CatOne(Run(b), z);
    CallOn(b, Concat(2, 3, [2], [3]));
    ThreeBytes(Run(b + [Concat(2, 3, [2], [3])]).m, z);
  }

  lemma CatOne(s: State, z: byte)
    requires 2 in s.m && 3 in s.m && s.m[2].next == Null && s.m[2].totLen == 1 && s.m[3] == One(z) && 3 in s.handles
    ensures Allowed(s, Concat(2, 3, [2], [3]))
    ensures Step(s, Concat(2, 3, [2], [3])).m == s.m[2 := s.m[2].(next := Pb(3), totLen := 2)]
  {
    assert [2][1..] == [] && [3][1..] == [];
    assert AddTot(s.m, [2], 1) == s.m[2 := s.m[2].(totLen := 2)];
  }

  lemma ThreeBytes(m: Mem, z: byte)
    requires 0 in m && 2 in m && 3 in m && m[0].next == Pb(2) && m[2].next == Pb(3) && m[3].next == Null
    requires m[0].data == m[2].data == m[3].data == [z]
    ensures Chain(m, Pb(0), [0, 2, 3]) && Total(m, [0, 2, 3]) == 3
  {
    assert [0, 2, 3][1..] == [2, 3] && [2, 3][1..] == [3] && [3][1..] == [];
    assert Flat(m, []) == [] && Flat(m, [3]) == [z] && Flat(m, [2, 3]) == [z] + [z];
  }
}
