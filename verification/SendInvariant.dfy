/** Every operation on the send queues keeps the tiling of sequence space and the counters, and
    the exact conditions under which the operations that do not always do so fail. */
module SendInvariant {
  import opened Common
  import opened SeqNum
  import opened SendQueue
  import opened SendLine

  // ---------------------------------------------------------------- tcp_write

  lemma {:induction false} ChunksTile(data: seq<byte>, seqno: int, size: nat, opts: nat, pbufs: nat)
    requires size > 0
    ensures Chain(Chunks(data, seqno, size, opts, pbufs), seqno, seqno + |data|)
    decreases |data|
  {
    if data != [] {
      var n := Min(|data|, size);
      ChunksTile(data[n..], seqno + n, size, opts, pbufs);
      var q := Chunks(data, seqno, size, opts, pbufs);
      assert q[1..] == Chunks(data[n..], seqno + n, size, opts, pbufs);
    }
  }

  lemma {:induction false} ChunksFlat(data: seq<byte>, seqno: int, size: nat, opts: nat, pbufs: nat)
    requires size > 0
    ensures Flat(Chunks(data, seqno, size, opts, pbufs)) == data
    decreases |data|
  {
    if data != [] {
      var n := Min(|data|, size);
      ChunksFlat(data[n..], seqno + n, size, opts, pbufs);
      var q := Chunks(data, seqno, size, opts, pbufs);
      assert q[1..] == Chunks(data[n..], seqno + n, size, opts, pbufs);
      assert data == data[..n] + data[n..];
    }
  }

  lemma {:induction false} ChunksEach(data: seq<byte>, seqno: int, size: nat, opts: nat, pbufs: nat, g: Seg)
    requires size > 0 && g in Chunks(data, seqno, size, opts, pbufs)
    ensures 0 < |g.data| <= size && !g.fin && g.opts == opts && g.pbufs == pbufs && seqno <= g.seqno
    ensures g.seqno - seqno + |g.data| <= |data| && g.data == data[g.seqno - seqno..][..|g.data|]
    decreases |data|
  {
    if data != [] {
      var n := Min(|data|, size);
      var head := Seg(seqno, data[..n], false, opts, pbufs);
      if g != head {
        ChunksEach(data[n..], seqno + n, size, opts, pbufs, g);
        assert data[n..][g.seqno - (seqno + n)..] == data[g.seqno - seqno..];
      }
    }
  }

  /** The last unsent segment after tcp_write(). */
  ghost function Grown(s: Tx, h: How, arg: seq<byte>): Seg
    requires s.unsent != []
  {
    var l := Last(s.unsent);
    l.(data := l.data + arg[..Tail(s, h, |arg|)], pbufs := l.pbufs + if Concat(s, h, |arg|) > 0 then 1 else 0)
  }

  lemma WriteShape(c: Conf, s: Tx, h: How, arg: seq<byte>)
    requires h.mss > c.optlen && c.align > 0
    ensures var q := NewSegments(c, s, h, arg);
            var t := Tail(s, h, |arg|);
            && q == Chunks(arg[t..], s.lbb + t, h.mss - c.optlen, c.optlen, if h.copy then 1 else 2)
            && (s.unsent == [] ==> t == 0 && Extended(c, s, h, arg) == q)
            && (s.unsent != [] ==> Extended(c, s, h, arg) == s.unsent[..|s.unsent| - 1] + ([Grown(s, h, arg)] + q))
            && (s.unsent != [] && t == 0 ==> Grown(s, h, arg) == Last(s.unsent) && Extended(c, s, h, arg) == s.unsent + q)
  {
    hide Chunks, Space;
    if s.unsent != [] {
      var l := Last(s.unsent);
      var b := s.unsent[..|s.unsent| - 1];
      var q := NewSegments(c, s, h, arg);
      assert s.unsent == b + [l];
      assert b + [Grown(s, h, arg)] + q == b + ([Grown(s, h, arg)] + q);
      if Tail(s, h, |arg|) == 0 { assert l.data + [] == l.data; }
    }
  }

  /** tcp_write() appends exactly its argument to the flattened unsent data. */
  lemma WriteAppends(c: Conf, s: Tx, h: How, arg: seq<byte>)
    requires h.mss > c.optlen && c.align > 0
    ensures Flat(Written(c, s, h, arg).unsent) == Flat(s.unsent) + arg
  {
    hide Chunks, Extended, Tail, NewSegments, OversizeAfter, Flat;
    WriteShape(c, s, h, arg);
    var t := Tail(s, h, |arg|);
    var q := NewSegments(c, s, h, arg);
    ChunksFlat(arg[t..], s.lbb + t, h.mss - c.optlen, c.optlen, if h.copy then 1 else 2);
    assert arg == arg[..t] + arg[t..];
    if s.unsent == [] {
      FlatEmpty();
      assert arg[0..] == arg && [] + arg == arg;
    } else {
      var b := s.unsent[..|s.unsent| - 1];
      assert s.unsent == b + [Last(s.unsent)];
      FlatGrown(b, Last(s.unsent), Grown(s, h, arg), q, arg[..t]);
    }
  }

  lemma FlatEmpty()
    ensures Flat([]) == []
  {
  }

  lemma FlatGrown(b: seq<Seg>, l: Seg, l': Seg, q: seq<Seg>, x: seq<byte>)
    requires l'.data == l.data + x
    ensures Flat(b + ([l'] + q)) == Flat(b + [l]) + (x + Flat(q))
  {
    FlatConcat(b, [l]);
    FlatConcat(b, [l'] + q);
    FlatConcat([l'], q);
    FlatOne(l);
    FlatOne(l');
    hide Flat;
    assert Flat(b) + (l.data + x + Flat(q)) == Flat(b) + l.data + (x + Flat(q));
  }

  lemma FlatOne(g: Seg)
    ensures Flat([g]) == g.data
  {
    assert [g][1..] == [];
  }

  /** Every segment tcp_write() makes holds at least one byte and at most the local MSS less the
      options; it makes one exactly when the last unsent segment does not take all the data. */
  lemma WriteNewSegments(c: Conf, s: Tx, h: How, arg: seq<byte>)
    requires h.mss > c.optlen
    ensures forall g :: g in NewSegments(c, s, h, arg) ==> 0 < |g.data| <= h.mss - c.optlen && !g.fin
    ensures NewSegments(c, s, h, arg) != [] <==> Tail(s, h, |arg|) < |arg|
  {
    hide Tail;
    var t := Tail(s, h, |arg|);
    forall g | g in NewSegments(c, s, h, arg) ensures 0 < |g.data| <= h.mss - c.optlen && !g.fin {
      ChunksEach(arg[t..], s.lbb + t, h.mss - c.optlen, c.optlen, if h.copy then 1 else 2, g);
    }
  }

  /** The last unsent segment never outgrows the local MSS, provided it and its spare room did
      not to begin with. */
  lemma WriteKeepsMss(c: Conf, s: Tx, h: How, arg: seq<byte>)
    requires s.unsent != [] && |Last(s.unsent).data| + Last(s.unsent).opts + s.oversize <= h.mss
    ensures |Grown(s, h, arg).data| + Last(s.unsent).opts <= h.mss
  {
    var room := h.mss - (|Last(s.unsent).data| + Last(s.unsent).opts);
    Low16Small(room);
    Low16Small(room - Fill(s, |arg|));
  }

  /** tcp_write() puts data into the last unsent segment only if that segment ends at snd_lbb. */
  predicate WriteSafe(s: Tx, h: How, len: nat) {
    Tail(s, h, len) > 0 ==> Last(s.unsent).End() == s.lbb
  }

  /** The line without its last segment, when that is the last unsent one. */
  lemma LineTail(s: Tx, from: int, to: int)
    requires Chain(Line(s), from, to) && s.unsent != [] && Last(s.unsent).End() == to
    ensures var b := s.unsent[..|s.unsent| - 1];
            var l := Last(s.unsent);
            && Line(s) == Merge(s.unacked, b) + [l]
            && Chain(Merge(s.unacked, b), from, l.seqno) && from <= l.seqno
            && (forall g :: g in s.unacked ==> g.seqno < l.seqno)
  {
    var b := s.unsent[..|s.unsent| - 1];
    var l := Last(s.unsent);
    var m := Line(s);
    assert s.unsent == b + [l];
    LineSorted(s.unacked, s.unsent, from, to);
    forall g | g in s.unacked ensures g.seqno < l.seqno {
      MergeMembers(s.unacked, s.unsent, g);
      MergeMembers(s.unacked, s.unsent, l);
      assert l in s.unsent;
      var i :| 0 <= i < |m| && m[i] == g;
      var j :| 0 <= j < |m| && m[j] == l;
      ChainAt(m, from, to, j);
      assert j == |m| - 1 && i != j;
      ChainAt(m, from, to, i);
      ChainOrder(m, from, to, i, j);
    }
    MergeAppend(s.unacked, b, [l]);
    ChainSplit(m, from, to, |m| - 1);
    assert m[..|m| - 1] == Merge(s.unacked, b);
  }

  lemma ChainAbove(a: seq<Seg>, q: seq<Seg>, from: int, to: int)
    requires Chain(q, from, to) && forall g :: g in a ==> g.seqno < from
    ensures Below(a, q)
  {
    forall h | h in q ensures h.seqno >= from {
      var i :| 0 <= i < |q| && q[i] == h;
      ChainAt(q, from, to, i);
    }
  }

  /** Put a chain on top of the line. */
  lemma ExtendLine(a: seq<Seg>, b: seq<Seg>, q: seq<Seg>, from: int, mid: int, to: int)
    requires Chain(Merge(a, b), from, mid) && Chain(q, mid, to)
    ensures Merge(a, b + q) == Merge(a, b) + q && Chain(Merge(a, b + q), from, to)
  {
    LineSorted(a, b, from, mid);
    ChainAbove(a, q, mid, to);
    MergeAppend(a, b, q);
    ChainJoin(Merge(a, b), q, from, mid, to);
  }

  lemma ChainHead(m: seq<Seg>, x: seq<Seg>, q: seq<Seg>, from: int, to: int)
    requires Chain(m + x, from, to) && |x| <= 1
    requires q != [] && (x != [] ==> q[0].seqno == x[0].seqno && q[0].End() >= x[0].End())
    ensures m + q != [] && (m + x != [] ==> (m + q)[0].End() >= (m + x)[0].End())
  {
  }

  /** The line after tcp_write(), and its chain. */
  lemma WrittenLine(c: Conf, s: Tx, h: How, arg: seq<byte>, from: int)
    requires Chain(Line(s), from, s.lbb) && (forall g :: g in s.unsent ==> !g.fin)
    requires h.mss > c.optlen && c.align > 0 && WriteSafe(s, h, |arg|)
    ensures var r := Merge(s.unacked, Extended(c, s, h, arg));
            && Chain(r, from, s.lbb + |arg|)
            && (Line(s) != [] ==> r != [] && r[0].End() >= Line(s)[0].End())
  {
    hide Chunks, Extended, Tail, NewSegments, Merge, Chain, Grown;
    WriteShape(c, s, h, arg);
    var t := Tail(s, h, |arg|);
    var q := NewSegments(c, s, h, arg);
    ChunksTile(arg[t..], s.lbb + t, h.mss - c.optlen, c.optlen, if h.copy then 1 else 2);
    if s.unsent == [] || t == 0 {
      assert s.unsent == [] ==> s.unsent + q == q;
      ExtendLine(s.unacked, s.unsent, q, from, s.lbb, s.lbb + |arg|);
    } else {
      GrownFacts(s, h, arg);
      WrittenLineGrown(s, Grown(s, h, arg), q, t, from, s.lbb + |arg|);
    }
  }

  lemma GrownFacts(s: Tx, h: How, arg: seq<byte>)
    requires s.unsent != []
    ensures var l, l' := Last(s.unsent), Grown(s, h, arg);
            l'.seqno == l.seqno && l'.TcpLen() == l.TcpLen() + Tail(s, h, |arg|) && l'.fin == l.fin
  {
    hide Tail;
  }

  lemma WrittenLineGrown(s: Tx, l': Seg, q: seq<Seg>, t: nat, from: int, to: int)
    requires Chain(Line(s), from, s.lbb) && s.unsent != [] && Last(s.unsent).End() == s.lbb
    requires l'.seqno == Last(s.unsent).seqno && l'.TcpLen() == Last(s.unsent).TcpLen() + t
    requires Chain(q, s.lbb + t, to)
    ensures var r := Merge(s.unacked, s.unsent[..|s.unsent| - 1] + ([l'] + q));
            Chain(r, from, to) && r != [] && r[0].End() >= Line(s)[0].End()
  {
    hide Merge, Chain;
    var b := s.unsent[..|s.unsent| - 1];
    var l := Last(s.unsent);
    LineTail(s, from, s.lbb);
    LineSorted(s.unacked, s.unsent, from, s.lbb);
    assert l in s.unsent;
    var top := [l'] + q;
    assert top[1..] == q;
    GrownChain(top, l, s.lbb + t, to);
    ExtendLine(s.unacked, b, top, from, l.seqno, to);
    ChainHead(Merge(s.unacked, b), [l], top, from, s.lbb);
  }

  lemma GrownChain(top: seq<Seg>, l: Seg, mid: int, to: int)
    requires top != [] && top[0].seqno == l.seqno && top[0].TcpLen() > 0 && top[0].End() == mid
    requires Chain(top[1..], mid, to)
    ensures Chain(top, l.seqno, to)
  {
  }

  /** tcp_write() may go ahead: tcp_write_checks() and the queue limit. */
  ghost predicate MayWrite(c: Conf, s: Tx, h: How, arg: seq<byte>) {
    && s.writable && |arg| <= s.sndBuf && h.mss > c.optlen && c.align > 0
    && s.queueLen + Pbufs(Extended(c, s, h, arg)) - Pbufs(s.unsent) <= c.maxQueue
  }

  lemma WrittenNoFin(c: Conf, s: Tx, h: How, arg: seq<byte>, g: Seg)
    requires h.mss > c.optlen && c.align > 0 && (forall x :: x in s.unsent ==> !x.fin)
    requires g in Extended(c, s, h, arg)
    ensures !g.fin
  {
    hide Chunks, Extended, Tail, NewSegments;
    WriteShape(c, s, h, arg);
    WriteNewSegments(c, s, h, arg);
    if s.unsent != [] {
      GrownFacts(s, h, arg);
      assert Last(s.unsent) in s.unsent;
    }
  }

  lemma WrittenInv(c: Conf, s: Tx, h: How, arg: seq<byte>)
    requires Inv(c, s) && MayWrite(c, s, h, arg) && WriteSafe(s, h, |arg|)
    ensures Inv(c, Written(c, s, h, arg))
  {
    hide Chunks, Extended, Tail, NewSegments, Merge, Chain, OversizeAfter;
    forall g | g in s.unsent ensures !g.fin { MergeMembers(s.unacked, s.unsent, g); }
    WrittenLine(c, s, h, arg, Base(s));
    WriteShape(c, s, h, arg);
    var r := Written(c, s, h, arg);
    forall g | g in Line(r) ensures !g.fin {
      MergeMembers(r.unacked, r.unsent, g);
      MergeMembers(s.unacked, s.unsent, g);
      if g in r.unsent { WrittenNoFin(c, s, h, arg, g); }
    }
    ChainBase(Line(r), Base(s), r.lbb);
    if r.unsent == [] {
      WriteNothing(c, s, h, arg);
    }
  }

  lemma ChainBase(q: seq<Seg>, from: int, to: int)
    requires Chain(q, from, to)
    ensures from <= to && (q == [] ==> from == to) && (q != [] ==> q[0].seqno == from && q[0].End() > from)
  {
    if q != [] { ChainAt(q, from, to, 0); }
  }

  lemma WriteNothing(c: Conf, s: Tx, h: How, arg: seq<byte>)
    requires h.mss > c.optlen && c.align > 0 && Extended(c, s, h, arg) == []
    ensures s.unsent == [] && OversizeAfter(c, s, h, arg) == 0
  {
    WriteShape(c, s, h, arg);
  }

  /** Two segments of a chain do not overlap. */
  lemma ChainDisjoint(q: seq<Seg>, from: int, to: int, x: Seg, y: Seg)
    requires Chain(q, from, to) && x in q && y in q && x.seqno < y.seqno
    ensures x.End() <= y.seqno
  {
    var i :| 0 <= i < |q| && q[i] == x;
    var j :| 0 <= j < |q| && q[j] == y;
    ChainAt(q, from, to, i);
    ChainAt(q, from, to, j);
    if i < j {
      ChainOrder(q, from, to, i, j);
    } else {
      ChainOrder(q, from, to, j, i);
    }
  }

  /** The segment that follows the last unsent one, when that does not end the line. */
  lemma Follower(s: Tx, from: int, to: int) returns (y: Seg)
    requires Chain(Line(s), from, to) && s.unsent != [] && Last(s.unsent).End() != to
    ensures y.seqno == Last(s.unsent).End() && (y in s.unacked || y in s.unsent[..|s.unsent| - 1])
  {
    hide Merge, Chain;
    var l := Last(s.unsent);
    var m := Line(s);
    assert l in s.unsent;
    MergeMembers(s.unacked, s.unsent, l);
    var i :| 0 <= i < |m| && m[i] == l;
    ChainAt(m, from, to, i);
    ChainNext(m, from, to, i);
    y := m[i + 1];
    assert y in m;
    MergeMembers(s.unacked, s.unsent, y);
    NotLast(s.unsent, y);
  }

  lemma NotLast(q: seq<Seg>, y: Seg)
    requires q != [] && y != Last(q)
    ensures y in q ==> y in q[..|q| - 1]
  {
    assert q == q[..|q| - 1] + [Last(q)];
  }

  /** A longer last unsent segment in the middle of the line breaks the tiling. */
  lemma MiddleGrows(s: Tx, r: Tx, l': Seg, q: seq<Seg>, from: int, to: int, from': int, to': int)
    requires Chain(Line(s), from, to) && s.unsent != [] && Last(s.unsent).End() != to
    requires l'.seqno == Last(s.unsent).seqno && l'.TcpLen() > Last(s.unsent).TcpLen()
    requires r.unacked == s.unacked && r.unsent == s.unsent[..|s.unsent| - 1] + ([l'] + q)
    ensures !Chain(Line(r), from', to')
  {
    var y := Follower(s, from, to);
    LineSorted(s.unacked, s.unsent, from, to);
    assert Last(s.unsent) in s.unsent && l' in [l'] + q && l' in r.unsent && (y in r.unacked || y in r.unsent);
    if Chain(Line(r), from', to') {
      MergeMembers(r.unacked, r.unsent, y);
      MergeMembers(r.unacked, r.unsent, l');
      ChainDisjoint(Line(r), from', to', l', y);
    }
  }

  /** A successful tcp_write() keeps the invariant exactly when it does not put data into a last
      unsent segment that ends below snd_lbb, that is, into a retransmitted one. */
  lemma WriteKeepsInv(c: Conf, s: Tx, h: How, arg: seq<byte>)
    requires Inv(c, s) && MayWrite(c, s, h, arg)
    ensures Inv(c, Written(c, s, h, arg)) <==> WriteSafe(s, h, |arg|)
  {
    if WriteSafe(s, h, |arg|) {
      WrittenInv(c, s, h, arg);
    } else {
      hide Chunks, Extended, Tail, NewSegments, Merge, Chain, OversizeAfter;
      WriteShape(c, s, h, arg);
      GrownFacts(s, h, arg);
      var r := Written(c, s, h, arg);
      MiddleGrows(s, r, Grown(s, h, arg), NewSegments(c, s, h, arg), Base(s), s.lbb, Base(r), r.lbb);
    }
  }

  // ---------------------------------------------------------------- closing

  /** tcp_send_fin() puts the FIN into a queued segment only if that segment ends at snd_lbb. */
  predicate CloseSafe(s: Tx) {
    s.unsent != [] && !Last(s.unsent).fin ==> Last(s.unsent).End() == s.lbb
  }

  /** tcp_enqueue_flags() finds room, or is not needed. */
  predicate MayClose(c: Conf, s: Tx) {
    s.writable && ((s.unsent != [] && !Last(s.unsent).fin) || (s.queueLen < c.maxQueue && s.sndBuf > 0))
  }

  lemma CloseKeepsInv(c: Conf, s: Tx)
    requires Inv(c, s) && MayClose(c, s)
    ensures Inv(c, Closed(c, s)) <==> CloseSafe(s)
  {
    hide Merge, Chain;
    var r := Closed(c, s);
    if s.unsent != [] && !Last(s.unsent).fin {
      var l' := Last(s.unsent).(fin := true);
      var b := s.unsent[..|s.unsent| - 1];
      assert r.unsent == b + ([l'] + []);
      if CloseSafe(s) {
        ChainNil(s.lbb + 1);
        WrittenLineGrown(s, l', [], 1, Base(s), s.lbb + 1);
        ChainBase(Line(r), Base(s), s.lbb + 1);
        assert s.unsent == b + [Last(s.unsent)];
        PbufsConcat(b, [Last(s.unsent)]);
        PbufsConcat(b, [l']);
        PbufsOne(l');
        PbufsOne(Last(s.unsent));
      } else {
        MiddleGrows(s, r, l', [], Base(s), s.lbb, Base(r), r.lbb + r.extra);
      }
    } else {
      var f := Seg(s.lbb, [], true, c.optlen, 1);
      ChainOne(f);
      ExtendLine(s.unacked, s.unsent, [f], Base(s), s.lbb, s.lbb + 1);
      ChainBase(Line(r), Base(s), s.lbb + 1);
      PbufsConcat(s.unsent, [f]);
      PbufsOne(f);
    }
  }

  lemma ChainNil(x: int)
    ensures Chain([], x, x)
  {
  }

  lemma ChainOne(g: Seg)
    requires g.TcpLen() > 0
    ensures Chain([g], g.seqno, g.End())
  {
    assert [g][1..] == [];
  }

  lemma PbufsOne(g: Seg)
    ensures Pbufs([g]) == g.pbufs
  {
    assert [g][1..] == [];
  }

  // ---------------------------------------------------------------- sending and resending

  /** Sending the first unsent segment moves it to its place in the unacked queue; the line, and
      with it the contiguous order of a retransmitted segment, is as before. */
  lemma SendOneLine(c: Conf, s: Tx)
    requires Inv(c, s) && s.unsent != []
    ensures Line(SendOne(s)) == Line(s)
    ensures SendOne(s).unacked == InsertSorted(s.unacked, s.unsent[0])
  {
    hide Merge, Chain, InsertSorted, PutUnacked;
    var g := s.unsent[0];
    LineSorted(s.unacked, s.unsent, Base(s), s.lbb + s.extra);
    assert g in s.unsent && s.unsent == [g] + s.unsent[1..];
    PutIsInsert(s.unacked, g);
    MergeInsertLeft(s.unacked, s.unsent[1..], g);
  }

  lemma {:induction false} InsertMembers(q: seq<Seg>, g: Seg, h: Seg)
    ensures h in InsertSorted(q, g) <==> h == g || h in q
    decreases |q|
  {
    if q != [] && q[0].seqno < g.seqno {
      InsertMembers(q[1..], g, h);
      assert q == [q[0]] + q[1..];
    }
  }

  lemma SendOneInv(c: Conf, s: Tx)
    requires Inv(c, s) && s.unsent != []
    ensures Inv(c, SendOne(s).(oversize := if |s.unsent| == 1 then 0 else s.oversize))
    ensures Line(SendOne(s)) == Line(s)
  {
    hide Merge, Chain, InsertSorted, PutUnacked, Pbufs;
    SendOneLine(c, s);
    assert s.unsent[0] in s.unsent;
    LineSorted(s.unacked, s.unsent, Base(s), s.lbb + s.extra);
    SendOneCounted(c, s);
  }

  lemma SendOneCounted(c: Conf, s: Tx)
    requires Counted(c, s) && s.unsent != [] && SendOne(s).unacked == InsertSorted(s.unacked, s.unsent[0])
    ensures Counted(c, SendOne(s).(oversize := if |s.unsent| == 1 then 0 else s.oversize))
  {
    hide InsertSorted, PutUnacked;
    var g := s.unsent[0];
    var r := SendOne(s);
    forall i | 0 <= i < |r.unacked| ensures r.unacked[i].End() <= r.sndNxt {
      InsertMembers(s.unacked, g, r.unacked[i]);
    }
    PbufsInsert(s.unacked, g);
  }

  /** tcp_output() keeps the invariant and the line, and sends only segments of the line. */
  lemma {:induction false} OutputInv(c: Conf, s: Tx, p: Pace)
    requires Inv(c, s)
    ensures var (t, sent) := Output(c, s, p);
            && Inv(c, t) && Line(t) == Line(s) && (forall g :: g in sent ==> g in Line(s))
            && t.lbb == s.lbb && t.extra == s.extra && t.writable == s.writable && t.lastack == s.lastack
    decreases |s.unsent|
  {
    hide Merge, Chain, MaySend;
    if Sendable(c, s, p) {
      SendOneInv(c, s);
      var r := SendOne(s);
      var r' := r.(oversize := if |s.unsent| == 1 then 0 else s.oversize);
      OversizeIrrelevant(c, r, r'.oversize, p);
      OutputInv(c, r', p);
      MergeMembers(s.unacked, s.unsent, s.unsent[0]);
    }
  }

  /** tcp_output() never looks at unsent_oversize; it only resets it when the queue is empty. */
  lemma {:induction false} OversizeIrrelevant(c: Conf, s: Tx, o: nat, p: Pace)
    requires o == s.oversize || s.unsent == []
    ensures Output(c, s.(oversize := o), p).1 == Output(c, s, p).1
    ensures s.unsent != [] || o == 0 ==> Output(c, s.(oversize := o), p).0 == Output(c, s, p).0
  {
    assert o == s.oversize ==> s.(oversize := o) == s;
  }

  /** tcp_rexmit() keeps the invariant and the line. */
  lemma RexmitInv(c: Conf, s: Tx)
    requires Inv(c, s)
    ensures Inv(c, Rexmit(s)) && Line(Rexmit(s)) == Line(s)
  {
    if s.unacked != [] {
      RexmitLine(s);
      RexmitCounted(c, s);
    }
  }

  lemma RexmitLine(s: Tx)
    requires Tiled(s) && s.unacked != []
    ensures Line(Rexmit(s)) == Line(s)
  {
    hide Merge, Chain, InsertSorted;
    var h := s.unacked[0];
    LineSorted(s.unacked, s.unsent, Base(s), s.lbb + s.extra);
    assert h in s.unacked && s.unacked == [h] + s.unacked[1..];
    MergeInsertRight(s.unacked[1..], s.unsent, h);
  }

  lemma RexmitCounted(c: Conf, s: Tx)
    requires Counted(c, s) && s.unacked != []
    ensures Counted(c, Rexmit(s))
  {
    hide InsertSorted;
    var h := s.unacked[0];
    PbufsInsert(s.unsent, h);
    assert Pbufs(s.unacked) == h.pbufs + Pbufs(s.unacked[1..]);
    InsertMembers(s.unsent, h, h);
  }

  /** Fast retransmission undone: once tcp_output() sends the segment that tcp_rexmit() took from
      the unacked queue, both queues are what they were. */
  lemma ResentInPlace(c: Conf, s: Tx)
    requires Inv(c, s) && s.unacked != []
    requires s.unsent != [] ==> s.unacked[0].seqno < s.unsent[0].seqno
    ensures var r := SendOne(Rexmit(s)); r.unacked == s.unacked && r.unsent == s.unsent
  {
    hide Merge, Chain, Inv, Tiled, Counted, InsertSorted, PutUnacked, Sorted;
    UnackedSorted(c, s);
    var h := s.unacked[0];
    var q := s.unacked[1..];
    assert s.unacked == [h] + q;
    SortedHeadLong(h, q);
    InsertFront(s.unsent, h);
    PutFront(q, h);
    assert ([h] + s.unsent)[1..] == s.unsent;
  }

  lemma UnackedSorted(c: Conf, s: Tx)
    requires Inv(c, s)
    ensures Sorted(s.unacked) && forall g :: g in s.unacked ==> g.TcpLen() > 0
  {
    LineSorted(s.unacked, s.unsent, Base(s), s.lbb + s.extra);
  }

  lemma SortedHeadLong(h: Seg, q: seq<Seg>)
    ensures h in [h] + q
  {
  }

  lemma InsertFront(q: seq<Seg>, h: Seg)
    requires q != [] ==> h.seqno < q[0].seqno
    ensures InsertSorted(q, h) == [h] + q
  {
  }

  lemma PutFront(q: seq<Seg>, h: Seg)
    requires Sorted([h] + q) && h.TcpLen() > 0
    ensures PutUnacked(q, h) == [h] + q
  {
    assert forall i :: 0 <= i < |q| ==> q[i] == ([h] + q)[i + 1];
    assert ([h] + q)[0] == h;
  }

  /** No retransmitted segment waits in front of an unacknowledged one. */
  predicate RtoSafe(s: Tx) {
    s.unacked == [] || s.unsent == [] || Last(s.unacked).seqno < s.unsent[0].seqno
  }

  /** The timeout keeps the invariant exactly when no retransmission is outstanding. */
  lemma RequeueKeepsInv(c: Conf, s: Tx)
    requires Inv(c, s)
    ensures Inv(c, Requeued(s)) <==> RtoSafe(s)
    ensures RtoSafe(s) ==> Line(Requeued(s)) == Line(s)
  {
    RequeueIsMerge(s.unacked, s.unsent, Base(s), s.lbb + s.extra);
    MergeNil(s.unacked + s.unsent);
    if RtoSafe(s) {
      RequeueGood(c, s);
    } else {
      RequeueBad(c, s);
    }
  }

  lemma RequeueGood(c: Conf, s: Tx)
    requires Inv(c, s) && s.unacked + s.unsent == Line(s) && Line(Requeued(s)) == Line(s)
    ensures Inv(c, Requeued(s))
  {
    hide Merge, Chain;
    PbufsConcat(s.unacked, s.unsent);
    assert Pbufs([]) == 0;
  }

  lemma RequeueBad(c: Conf, s: Tx)
    requires Inv(c, s) && !RtoSafe(s)
    ensures !Tiled(Requeued(s))
  {
    hide Merge, Chain, Sorted;
    var r := Requeued(s);
    LineSorted(s.unacked, s.unsent, Base(s), s.lbb + s.extra);
    assert r.unsent[|s.unacked| - 1] == Last(s.unacked) && r.unsent[|s.unacked|] == s.unsent[0];
    NotSorted(r.unsent, |s.unacked| - 1);
    if Tiled(r) { LineSorted([], r.unsent, Base(r), r.lbb + r.extra); }
  }

  lemma NotSorted(q: seq<Seg>, i: nat)
    requires i + 1 < |q| && q[i].seqno >= q[i + 1].seqno
    ensures !Sorted(q)
  {
  }

  lemma MergeNil(q: seq<Seg>)
    ensures Merge([], q) == q
  {
  }

  // ---------------------------------------------------------------- acknowledgements

  lemma {:induction false} AckedBelow(q: seq<Seg>, k: int)
    ensures forall g :: g in q[..Acked(q, k)] ==> g.End() <= k
    ensures Acked(q, k) < |q| ==> q[Acked(q, k)].End() > k
  {
    if q != [] && q[0].End() <= k {
      AckedBelow(q[1..], k);
      assert q[..Acked(q, k)] == [q[0]] + q[1..][..Acked(q[1..], k)];
    }
  }

  lemma FreeCount(q: seq<Seg>, n: nat)
    requires n <= |q| && Pbufs(q) <= 0xff
    ensures Clens(q[..n]) == Pbufs(q[..n]) && Pbufs(q[..n]) + Pbufs(q[n..]) == Pbufs(q)
  {
    assert q == q[..n] + q[n..];
    PbufsConcat(q[..n], q[n..]);
    ClensExact(q[..n]);
  }

  /** The line with everything that ends at or below `k` dropped is a chain from a position at or
      below `k`, and starts with a segment that ends above it. */
  lemma DropChain(m: seq<Seg>, k: int, from: int, to: int)
    requires Chain(m, from, to) && from <= k <= to
    ensures var n := Acked(m, k);
            var mid := if n < |m| then m[n].seqno else to;
            && Chain(m[n..], mid, to) && mid <= k
            && (n < |m| ==> m[n].End() > k)
  {
    var n := Acked(m, k);
    ChainSplit(m, from, to, n);
    AckedBelow(m, k);
    if n > 0 {
      assert m[..n][n - 1] == m[n - 1];
      if n < |m| { ChainNext(m, from, to, n - 1); } else { ChainAt(m, from, to, n - 1); }
    } else if |m| > 0 {
      ChainAt(m, from, to, 0);
    }
  }

  lemma {:induction false} ChainNext(q: seq<Seg>, from: int, to: int, i: nat)
    requires Chain(q, from, to) && i + 1 < |q|
    ensures q[i].End() == q[i + 1].seqno
    decreases i
  {
    if i > 0 { ChainNext(q[1..], q[0].End(), to, i - 1); }
  }

  /** A new acknowledgement drops exactly the segments of the line it covers, wherever they are
      queued; the 16-bit difference loses nothing. */
  lemma NewAckLine(c: Conf, s: Tx, ackno: int)
    requires Inv(c, s) && s.lastack < ackno <= s.sndNxt
    ensures var r := AckReceived(s, ackno, false);
            && Line(r) == Line(s)[Acked(Line(s), ackno)..]
            && r.sndBuf == s.sndBuf + (ackno - s.lastack) && r.lastack == ackno
            && r.unacked == s.unacked[Acked(s.unacked, ackno)..] && r.unsent == s.unsent[Acked(s.unsent, ackno)..]
  {
    hide Merge, Chain, Acked;
    MergeDrop(s.unacked, s.unsent, ackno, Base(s), s.lbb + s.extra);
    Low16Small(ackno - s.lastack);
  }

  lemma OldAckLine(c: Conf, s: Tx, ackno: int)
    requires Inv(c, s) && ackno <= s.lastack
    ensures Acked(s.unsent, ackno) == 0
  {
    var m := Line(s);
    forall g | g in s.unsent ensures g.End() > ackno {
      MergeMembers(s.unacked, s.unsent, g);
      var i :| 0 <= i < |m| && m[i] == g;
      if i > 0 {
        ChainOrder(m, Base(s), s.lbb + s.extra, 0, i);
        ChainAt(m, Base(s), s.lbb + s.extra, i);
      }
    }
    AckedNone(s.unsent, ackno);
  }

  /** Every acknowledgement, old, new or beyond what was sent, keeps the invariant. */
  lemma AckInv(c: Conf, s: Tx, ackno: int, third: bool)
    requires Inv(c, s)
    ensures Inv(c, AckReceived(s, ackno, third))
  {
    hide Merge, Chain, Acked, Rexmit;
    var r := AckReceived(s, ackno, third);
    FreeNone(s);
    if ackno <= s.lastack {
      RexmitInv(c, s);
      RexmitFields(s);
      OldAckLine(c, if third then Rexmit(s) else s, ackno);
      FreeNone(if third then Rexmit(s) else s);
    } else if ackno <= s.sndNxt {
      NewAckInv(c, s, ackno);
    }
  }

  lemma FreeNone(s: Tx)
    ensures FreeUnsent(s, 0) == s
  {
    assert s.unsent[0..] == s.unsent && s.unsent[..0] == [] && Clens([]) == 0;
  }

  lemma NewAckInv(c: Conf, s: Tx, ackno: int)
    requires Inv(c, s) && s.lastack < ackno <= s.sndNxt
    ensures Inv(c, AckReceived(s, ackno, false)) && AckReceived(s, ackno, true) == AckReceived(s, ackno, false)
  {
    hide Merge, Chain, Acked;
    var r := AckReceived(s, ackno, false);
    NewAckLine(c, s, ackno);
    DropChain(Line(s), ackno, Base(s), s.lbb + s.extra);
    FreeCount(s.unacked, Acked(s.unacked, ackno));
    FreeCount(s.unsent, Acked(s.unsent, ackno));
  }

  lemma RexmitFields(s: Tx)
    ensures var r := Rexmit(s);
            && r.sndNxt == s.sndNxt && r.lastack == s.lastack
            && r.lbb == s.lbb && r.extra == s.extra && r.writable == s.writable
  {
  }

  /** An acknowledgement queues nothing new and moves none of the upper bounds. */
  lemma AckSubset(c: Conf, s: Tx, ackno: int, third: bool)
    requires Inv(c, s)
    ensures var r := AckReceived(s, ackno, third);
            && r.lbb == s.lbb && r.extra == s.extra && r.writable == s.writable
            && forall g :: g in Line(r) ==> g in Line(s)
  {
    hide Merge, Chain, Acked, Rexmit;
    RexmitFields(s);
    FreeNone(s);
    if s.lastack < ackno <= s.sndNxt {
      NewAckLine(c, s, ackno);
      NewAckInv(c, s, ackno);
    } else if ackno <= s.lastack {
      RexmitInv(c, s);
      OldAckLine(c, if third then Rexmit(s) else s, ackno);
      FreeNone(if third then Rexmit(s) else s);
    }
  }
}
