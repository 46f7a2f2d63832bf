/** Facts about chains of segments and about merging the two send queues. */
module SendLine {
  import opened SeqNum
  import opened SendQueue

  lemma {:induction false} ChainAt(q: seq<Seg>, from: int, to: int, i: nat)
    requires Chain(q, from, to) && i < |q|
    ensures from <= q[i].seqno < q[i].End() <= to && q[i].TcpLen() > 0
    ensures i == 0 <==> q[i].seqno == from
    ensures i == |q| - 1 <==> q[i].End() == to
    decreases |q|
  {
    if i > 0 {
      ChainAt(q[1..], q[0].End(), to, i - 1);
    } else if |q| > 1 {
      ChainAt(q[1..], q[0].End(), to, 0);
    } else {
      assert q[1..] == [];
    }
  }

  lemma {:induction false} ChainOrder(q: seq<Seg>, from: int, to: int, i: nat, j: nat)
    requires Chain(q, from, to) && i < j < |q|
    ensures q[i].End() <= q[j].seqno
    decreases i
  {
    if i == 0 {
      ChainAt(q[1..], q[0].End(), to, j - 1);
    } else {
      ChainOrder(q[1..], q[0].End(), to, i - 1, j - 1);
    }
  }

  lemma {:induction false} ChainSplit(q: seq<Seg>, from: int, to: int, n: nat)
    requires Chain(q, from, to) && n <= |q|
    ensures var mid := if n < |q| then q[n].seqno else to;
            Chain(q[..n], from, mid) && Chain(q[n..], mid, to) && from <= mid <= to
    decreases n
  {
    if q != [] { ChainAt(q, from, to, |q| - 1); }
    if n > 0 {
      ChainSplit(q[1..], q[0].End(), to, n - 1);
      assert q[..n][1..] == q[1..][..n - 1] && q[1..][n - 1..] == q[n..];
    } else {
      assert q[..0] == [] && q[0..] == q;
    }
  }

  lemma {:induction false} ChainJoin(a: seq<Seg>, b: seq<Seg>, from: int, mid: int, to: int)
    requires Chain(a, from, mid) && Chain(b, mid, to)
    ensures Chain(a + b, from, to)
    decreases |a|
  {
    if a == [] {
      assert a + b == b;
    } else {
      ChainJoin(a[1..], b, a[0].End(), mid, to);
      assert (a + b)[1..] == a[1..] + b;
    }
  }

  lemma {:induction false} MergeMembers(a: seq<Seg>, b: seq<Seg>, g: Seg)
    ensures g in Merge(a, b) <==> g in a || g in b
    decreases |a| + |b|
  {
    if a != [] && b != [] {
      if a[0].seqno < b[0].seqno {
        MergeMembers(a[1..], b, g);
        assert a == [a[0]] + a[1..];
      } else {
        MergeMembers(a, b[1..], g);
        assert b == [b[0]] + b[1..];
      }
    }
  }

  ghost predicate Sorted(q: seq<Seg>) {
    forall i, j :: 0 <= i < j < |q| ==> q[i].seqno < q[j].seqno
  }

  /** Every element of `a` starts below every element of `b`. */
  ghost predicate Below(a: seq<Seg>, b: seq<Seg>) {
    forall g, h :: g in a && h in b ==> g.seqno < h.seqno
  }

  lemma SortedHead(m: seq<Seg>, g: Seg)
    requires Sorted(m) && m != [] && g in m[1..]
    ensures m[0].seqno < g.seqno && Sorted(m[1..])
  {
    var i :| 0 <= i < |m[1..]| && m[1..][i] == g;
    assert m[i + 1] == g;
  }

  lemma SortedCons(h: Seg, q: seq<Seg>)
    requires Sorted(q) && forall g :: g in q ==> h.seqno < g.seqno
    ensures Sorted([h] + q)
  {
  }

  lemma {:induction false} MergeSorted(a: seq<Seg>, b: seq<Seg>)
    requires Sorted(Merge(a, b))
    ensures Sorted(a) && Sorted(b)
    ensures forall g, h :: g in a && h in b ==> g.seqno != h.seqno
    decreases |a| + |b|
  {
    hide Sorted;
    var m := Merge(a, b);
    SortedEmpty();
    if a != [] && b != [] {
      SortedHead(m, m[1]);
      forall g | g in m[1..] ensures m[0].seqno < g.seqno { SortedHead(m, g); }
      if a[0].seqno < b[0].seqno {
        assert m[1..] == Merge(a[1..], b) && a == [a[0]] + a[1..];
        MergeSorted(a[1..], b);
        forall g | g in a[1..] || g in b ensures a[0].seqno < g.seqno { MergeMembers(a[1..], b, g); }
        SortedCons(a[0], a[1..]);
      } else {
        assert m[1..] == Merge(a, b[1..]) && b == [b[0]] + b[1..];
        MergeSorted(a, b[1..]);
        forall g | g in a || g in b[1..] ensures b[0].seqno < g.seqno { MergeMembers(a, b[1..], g); }
        SortedCons(b[0], b[1..]);
      }
    }
  }

  lemma SortedEmpty()
    ensures Sorted([])
  {
  }

  lemma LineSorted(a: seq<Seg>, b: seq<Seg>, from: int, to: int)
    requires Chain(Merge(a, b), from, to)
    ensures Sorted(Merge(a, b)) && Sorted(a) && Sorted(b)
    ensures forall g, h :: g in a && h in b ==> g.seqno != h.seqno
    ensures forall g :: g in a || g in b ==> from <= g.seqno < g.End() <= to
  {
    var m := Merge(a, b);
    forall i, j | 0 <= i < j < |m| ensures m[i].seqno < m[j].seqno {
      ChainOrder(m, from, to, i, j);
      ChainAt(m, from, to, i);
    }
    MergeSorted(a, b);
    forall g | g in a || g in b ensures from <= g.seqno < g.End() <= to {
      MergeMembers(a, b, g);
      var i :| 0 <= i < |m| && m[i] == g;
      ChainAt(m, from, to, i);
    }
  }

  lemma {:induction false} MergeConcat(a: seq<Seg>, c: seq<Seg>)
    requires Below(a, c)
    ensures Merge(a, c) == a + c
    decreases |a|
  {
    if a != [] && c != [] {
      assert a[0] in a && c[0] in c;
      MergeConcat(a[1..], c);
      assert a == [a[0]] + a[1..];
    }
  }

  /** Appending to the unsent queue what lies above both queues appends it to the line. */
  lemma {:induction false} MergeAppend(a: seq<Seg>, b: seq<Seg>, c: seq<Seg>)
    requires Below(a, c)
    ensures Merge(a, b + c) == Merge(a, b) + c
    decreases |a| + |b|
  {
    if a == [] {
    } else if b == [] {
      assert b + c == c;
      MergeConcat(a, c);
    } else {
      assert (b + c)[0] == b[0] && (b + c)[1..] == b[1..] + c;
      if a[0].seqno < b[0].seqno {
        MergeAppend(a[1..], b, c);
        assert [a[0]] + (Merge(a[1..], b) + c) == [a[0]] + Merge(a[1..], b) + c;
      } else {
        MergeAppend(a, b[1..], c);
        assert [b[0]] + (Merge(a, b[1..]) + c) == [b[0]] + Merge(a, b[1..]) + c;
      }
    }
  }

  /** Moving the head of one queue into the other leaves the line alone. */
  lemma {:induction false} MergeInsertRight(a: seq<Seg>, b: seq<Seg>, h: Seg)
    requires Below([h], a) && forall g :: g in b ==> g.seqno != h.seqno
    ensures Merge(a, InsertSorted(b, h)) == Merge([h] + a, b)
    decreases |b|
  {
    assert ([h] + a)[1..] == a && h in [h];
    if b == [] || b[0].seqno >= h.seqno {
      assert b != [] ==> b[0] in b;
      assert ([h] + b)[1..] == b;
      if a == [] && b == [] { assert [h] + a == [h] + b; }
    } else {
      var t := InsertSorted(b[1..], h);
      assert ([b[0]] + t)[1..] == t;
      assert a != [] ==> a[0] in a;
      MergeInsertRight(a, b[1..], h);
      if a == [] { assert Merge(a, [b[0]] + t) == [b[0]] + Merge(a, t); }
    }
  }

  lemma {:induction false} MergeInsertLeft(a: seq<Seg>, b: seq<Seg>, h: Seg)
    requires Below([h], b) && forall g :: g in a ==> g.seqno != h.seqno
    ensures Merge(InsertSorted(a, h), b) == Merge(a, [h] + b)
    decreases |a|
  {
    assert ([h] + b)[1..] == b && h in [h];
    if a == [] || a[0].seqno >= h.seqno {
      assert a != [] ==> a[0] in a;
      assert ([h] + a)[1..] == a;
      assert b != [] ==> b[0] in b;
      if b == [] { assert [h] + b == [h]; assert Merge(a, []) == a; }
    } else {
      var t := InsertSorted(a[1..], h);
      assert ([a[0]] + t)[1..] == t;
      assert b != [] ==> b[0] in b;
      MergeInsertLeft(a[1..], b, h);
      if b == [] { assert Merge([a[0]] + t, b) == [a[0]] + Merge(t, b); }
    }
  }

  /** tcp_output() keeps the unacked queue sorted: its shortcut for the tail is an insertion. */
  lemma {:induction false} PutIsInsert(q: seq<Seg>, g: Seg)
    requires Sorted(q) && forall h :: h in q ==> h.seqno != g.seqno
    ensures PutUnacked(q, g) == InsertSorted(q, g)
  {
    if q != [] && g.seqno > Last(q).seqno { InsertLast(q, g); }
  }

  lemma {:induction false} InsertLast(q: seq<Seg>, g: Seg)
    requires forall h :: h in q ==> h.seqno < g.seqno
    ensures InsertSorted(q, g) == q + [g]
    decreases |q|
  {
    if q != [] {
      assert q[0] in q;
      InsertLast(q[1..], g);
      assert q == [q[0]] + q[1..];
    }
  }

  lemma {:induction false} AckedNone(q: seq<Seg>, k: int)
    requires forall g :: g in q ==> g.End() > k
    ensures Acked(q, k) == 0
  {
    if q != [] { assert q[0] in q; }
  }

  /** Dropping what is acknowledged from either queue drops it from the line. */
  lemma {:induction false} MergeDrop(a: seq<Seg>, b: seq<Seg>, k: int, from: int, to: int)
    requires Chain(Merge(a, b), from, to)
    ensures var m := Merge(a, b);
            Merge(a[Acked(a, k)..], b[Acked(b, k)..]) == m[Acked(m, k)..]
    decreases |a| + |b|
  {
    var m := Merge(a, b);
    if m == [] {
      assert a == [] && b == [];
    } else if m[0].End() > k {
      forall g | g in m ensures g.End() > k {
        var i :| 0 <= i < |m| && m[i] == g;
        if i > 0 {
          ChainOrder(m, from, to, 0, i);
          ChainAt(m, from, to, i);
        }
      }
      forall g | g in a || g in b ensures g.End() > k { MergeMembers(a, b, g); }
      AckedNone(a, k);
      AckedNone(b, k);
      assert a[0..] == a && b[0..] == b && m[0..] == m;
    } else {
      var n := Acked(m, k);
      if b == [] || (a != [] && a[0].seqno < b[0].seqno) {
        assert m[0] == a[0] && m[1..] == Merge(a[1..], b);
        MergeDrop(a[1..], b, k, m[0].End(), to);
        assert a[Acked(a, k)..] == a[1..][Acked(a[1..], k)..];
      } else {
        assert m[0] == b[0] && m[1..] == Merge(a, b[1..]);
        MergeDrop(a, b[1..], k, m[0].End(), to);
        assert b[Acked(b, k)..] == b[1..][Acked(b[1..], k)..];
      }
      assert m[n..] == m[1..][Acked(m[1..], k)..];
    }
  }

  /** Concatenating the queues is merging them exactly when none of the unsent segments is a
      retransmission that precedes an unacknowledged one. */
  lemma RequeueIsMerge(a: seq<Seg>, b: seq<Seg>, from: int, to: int)
    requires Chain(Merge(a, b), from, to)
    ensures a + b == Merge(a, b) <==> a == [] || b == [] || Last(a).seqno < b[0].seqno
  {
    LineSorted(a, b, from, to);
    if a != [] && b != [] {
      assert (a + b)[|a| - 1] == Last(a) && (a + b)[|a|] == b[0];
      if Last(a).seqno < b[0].seqno {
        forall g, h | g in a && h in b ensures g.seqno < h.seqno {
          var i :| 0 <= i < |a| && a[i] == g;
          var j :| 0 <= j < |b| && b[j] == h;
        }
        MergeConcat(a, b);
      }
    }
  }

  lemma {:induction false} PbufsConcat(a: seq<Seg>, b: seq<Seg>)
    ensures Pbufs(a + b) == Pbufs(a) + Pbufs(b)
    decreases |a|
  {
    if a == [] {
      assert a + b == b;
    } else {
      assert (a + b)[1..] == a[1..] + b;
      PbufsConcat(a[1..], b);
    }
  }

  lemma {:induction false} PbufsInsert(q: seq<Seg>, g: Seg)
    ensures Pbufs(InsertSorted(q, g)) == Pbufs(q) + g.pbufs
    decreases |q|
  {
    if q == [] || q[0].seqno >= g.seqno {
      assert ([g] + q)[1..] == q;
    } else {
      PbufsInsert(q[1..], g);
      assert ([q[0]] + InsertSorted(q[1..], g))[1..] == InsertSorted(q[1..], g);
    }
  }

  lemma {:induction false} ClensExact(q: seq<Seg>)
    requires Pbufs(q) <= 0xff
    ensures Clens(q) == Pbufs(q)
  {
    if q != [] { ClensExact(q[1..]); }
  }

  lemma {:induction false} FlatConcat(a: seq<Seg>, b: seq<Seg>)
    ensures Flat(a + b) == Flat(a) + Flat(b)
    decreases |a|
  {
    if a == [] {
      assert a + b == b;
    } else {
      assert (a + b)[1..] == a[1..] + b;
      FlatConcat(a[1..], b);
      assert a[0].data + (Flat(a[1..]) + Flat(b)) == a[0].data + Flat(a[1..]) + Flat(b);
    }
  }
}
