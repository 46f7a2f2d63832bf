/** What the send path does not leave undone (lwip/core/tcp_out.c): how full tcp_write() makes the
    segments, when tcp_output() sends and when it waits, what a retransmission puts on the wire, and
    that nothing accepted is lost before it is acknowledged. */
module SendProgress {
  import opened Common
  import opened SeqNum
  import opened SendQueue
  import opened SendLine
  import opened SendInvariant
  import opened SendRuns
  import R = Reassembly

  // ---------------------------------------------------------------- tcp_write

  /** The spare room of a new pbuf: when the heuristic asks for some, the pbuf is as long as what is
      needed and TCP_OVERSIZE, rounded up, but no longer than allowed. */
  lemma ExtraExact(c: Conf, busy: bool, h: How, length: nat, maxLength: int, first: bool, a: nat)
    requires c.align > 0 && a % c.align == 0 && length + c.oversize <= a < length + c.oversize + c.align
    ensures var r := Extra(c, busy, h, length, maxLength, first);
            if length < maxLength && (h.more || (!h.nodelay && (!first || busy))) then length + r == Min(maxLength, a)
            else r == 0
  {
    Rounded(length + c.oversize, c.align, a);
  }

  lemma Rounded(x: nat, align: nat, a: nat)
    requires align > 0 && a % align == 0 && x <= a < x + align
    ensures x + align - 1 - (x + align - 1) % align == a
  {
    var y := x + align - 1;
    Quotients(align, a / align, y / align);
    Quotients(align, y / align, a / align);
  }

  lemma {:induction false} Quotients(align: nat, p: int, q: int)
    ensures p < q ==> align * p + align <= align * q
    decreases q - p
  {
    if p < q {
      Quotients(align, p, q - 1);
      Distribute(align, q - 1);
    }
  }

  lemma Distribute(align: nat, q: int)
    ensures align * (q + 1) == align * q + align
  {
  }

  /** The last unsent segment takes all that it has room for: up to the local MSS, or only its spare
      room if it holds no data. */
  lemma TailFilled(s: Tx, h: How, len: nat)
    requires s.unsent != [] && |Last(s.unsent).data| + Last(s.unsent).opts + s.oversize <= h.mss
    ensures var l := Last(s.unsent);
            Tail(s, h, len) == Min(len, if l.data != [] then h.mss - |l.data| - l.opts else s.oversize)
  {
    var room := h.mss - (|Last(s.unsent).data| + Last(s.unsent).opts);
    Low16Small(room);
    Low16Small(room - Fill(s, len));
  }

  lemma {:induction false} ChunksCount(data: seq<byte>, seqno: int, size: nat, opts: nat, pbufs: nat)
    requires size > 0
    ensures var q := Chunks(data, seqno, size, opts, pbufs); q != [] ==> (|q| - 1) * size < |data| <= |q| * size
    ensures Chunks(data, seqno, size, opts, pbufs) == [] <==> data == []
    decreases |data|
  {
    if data != [] {
      var n := Min(|data|, size);
      var r := Chunks(data[n..], seqno + n, size, opts, pbufs);
      ChunksCount(data[n..], seqno + n, size, opts, pbufs);
      Times(|r| + 1, size);
      Times(|r|, size);
    }
  }

  lemma {:induction false} ChunksFull(data: seq<byte>, seqno: int, size: nat, opts: nat, pbufs: nat, i: nat)
    requires size > 0
    ensures var q := Chunks(data, seqno, size, opts, pbufs);
            i < |q| ==> q[i].seqno == seqno + i * size && |q[i].data| == Min(size, |data| - i * size)
    decreases |data|
  {
    if data != [] && i > 0 {
      var n := Min(|data|, size);
      var q, r := Chunks(data, seqno, size, opts, pbufs), Chunks(data[n..], seqno + n, size, opts, pbufs);
      assert q[1..] == r;
      ChunksFull(data[n..], seqno + n, size, opts, pbufs, i - 1);
      Times(i, size);
      if i < |q| { assert q[i] == r[i - 1]; }
    }
  }

  lemma Times(n: nat, size: nat)
    ensures n > 0 ==> n * size == (n - 1) * size + size
  {
    if n > 0 { assert n * size == (n - 1 + 1) * size; }
  }

  /** New segments are full, all but the last, and no more than are needed. */
  lemma FullSegments(c: Conf, s: Tx, h: How, arg: seq<byte>, i: nat)
    requires h.mss > c.optlen
    ensures var q, size, rest := NewSegments(c, s, h, arg), h.mss - c.optlen, |arg| - Tail(s, h, |arg|);
            && (q == [] <==> rest == 0) && (q != [] ==> (|q| - 1) * size < rest <= |q| * size)
            && (i < |q| ==> |q[i].data| == Min(size, rest - i * size) && q[i].seqno == s.lbb + |arg| - rest + i * size)
  {
    hide Tail, Chunks;
    var t := Tail(s, h, |arg|);
    WriteNewSegments(c, s, h, arg);
    ChunksCount(arg[t..], s.lbb + t, h.mss - c.optlen, c.optlen, if h.copy then 1 else 2);
    ChunksFull(arg[t..], s.lbb + t, h.mss - c.optlen, c.optlen, if h.copy then 1 else 2, i);
  }

  /** The spare room behind the last unsent segment after tcp_write(): what is left of it, if the data
      fitted there; and otherwise that of the pbuf that was allocated last, if it was one for a copy. */
  lemma SpareRoom(c: Conf, s: Tx, h: How, arg: seq<byte>)
    requires h.mss > c.optlen && c.align > 0 && s.unsent != []
    requires |Last(s.unsent).data| + Last(s.unsent).opts + s.oversize <= h.mss
    ensures var r, q, k := Written(c, s, h, arg), NewSegments(c, s, h, arg), Concat(s, h, |arg|);
            && (q == [] && k == 0 ==> |Last(r.unsent).data| + r.oversize == |Last(s.unsent).data| + s.oversize)
            && (!(q == [] && k == 0) && !h.copy ==> r.oversize == 0)
            && (q != [] && h.copy ==> r.oversize == Extra(c, Busy(s), h, |Last(r.unsent).data| + c.optlen, h.mss, |q| == 1))
            && (q == [] && k > 0 && h.copy ==> r.oversize == Extra(c, Busy(s), h, k, Space(s, h, |arg|), true))
            && (q == [] && k > 0 ==> |Last(r.unsent).data| + Last(r.unsent).opts - k + Space(s, h, |arg|) == h.mss)
  {
    hide Extra, Chunks, Extended;
    WriteShape(c, s, h, arg);
    WriteNewSegments(c, s, h, arg);
    TailFilled(s, h, |arg|);
    var room := h.mss - (|Last(s.unsent).data| + Last(s.unsent).opts);
    Low16Small(room);
    Low16Small(room - Fill(s, |arg|));
  }

  // ---------------------------------------------------------------- tcp_output

  predicate InsideWindow(s: Tx, p: Pace, g: Seg) { g.seqno + |g.data| <= s.lastack + p.wnd }

  /** Nagle's algorithm holds back a short segment on its own while data are unacknowledged. */
  predicate HeldBack(c: Conf, s: Tx, p: Pace) {
    && s.unacked != [] && |s.unsent| == 1 && |s.unsent[0].data| < p.mss
    && !p.force && s.sndBuf > 0 && s.queueLen < c.maxQueue
  }

  predicate Waits(c: Conf, s: Tx, p: Pace) {
    s.unsent == [] || !InsideWindow(s, p, s.unsent[0]) || HeldBack(c, s, p)
  }

  /** The unsent segments lie ahead of the oldest unacknowledged byte, near it. */
  ghost predicate Ahead(s: Tx) {
    && s.sndBuf >= 0
    && forall g :: g in s.unsent ==> g.TcpLen() > 0 && s.lastack <= g.seqno + |g.data| < s.lastack + 0x1_0000_0000
  }

  lemma InvAhead(c: Conf, s: Tx)
    requires Inv(c, s)
    ensures Ahead(s)
  {
    hide Merge, Chain;
    var m := Line(s);
    forall g | g in s.unsent ensures g.TcpLen() > 0 && s.lastack <= g.seqno + |g.data| < s.lastack + 0x1_0000_0000 {
      MergeMembers(s.unacked, s.unsent, g);
      var i :| 0 <= i < |m| && m[i] == g;
      ChainAt(m, Base(s), s.lbb + s.extra, i);
      if i > 0 { ChainOrder(m, Base(s), s.lbb + s.extra, 0, i); }
    }
  }

  lemma SendableIs(c: Conf, s: Tx, p: Pace)
    requires Ahead(s)
    ensures Sendable(c, s, p) <==> !Waits(c, s, p)
  {
    if s.unsent != [] {
      assert s.unsent[0] in s.unsent;
      WrapSmall(s.unsent[0].seqno - s.lastack + |s.unsent[0].data|);
    }
  }

  lemma SendOneAhead(s: Tx)
    requires Ahead(s) && s.unsent != []
    ensures var r := SendOne(s);
            && Ahead(r) && r.unsent == s.unsent[1..] && r.unacked != []
            && r.lastack == s.lastack && r.sndBuf == s.sndBuf && r.queueLen == s.queueLen
  {
    assert s.unsent[0] in s.unsent;
    if s.unacked != [] && s.unsent[0].seqno < Last(s.unacked).seqno { InsertSome(s.unacked, s.unsent[0]); }
  }

  lemma InsertSome(q: seq<Seg>, g: Seg)
    ensures InsertSorted(q, g) != []
  {
  }

  /** tcp_output() sends the front of the unsent queue, in order: every segment up to the first that
      is outside the window, but for a short last one that is to wait. It sends nothing exactly when it
      has to wait, and has to wait when it is done. */
  lemma {:induction false} OutputSends(c: Conf, s: Tx, p: Pace)
    requires Ahead(s)
    ensures var (t, sent) := Output(c, s, p);
            var n := |sent|;
            && n <= |s.unsent| && sent == s.unsent[..n] && t.unsent == s.unsent[n..]
            && (n == 0 <==> Waits(c, s, p)) && Waits(c, t, p)
            && (forall i :: 0 <= i < n ==> InsideWindow(s, p, s.unsent[i]))
            && (n == |s.unsent| > 0 && (n > 1 || s.unacked != []) ==>
                  |Last(s.unsent).data| >= p.mss || p.force || s.sndBuf == 0 || s.queueLen >= c.maxQueue)
            && (n > 0 ==> t.unacked != [])
            && t.lastack == s.lastack && t.sndBuf == s.sndBuf && t.queueLen == s.queueLen
    decreases |s.unsent|
  {
    hide Sendable, SendOne, Ahead;
    SendableIs(c, s, p);
    if Sendable(c, s, p) {
      SendOneAhead(s);
      var r := SendOne(s);
      OutputSends(c, r, p);
      var (t, sent) := Output(c, r, p);
      assert [s.unsent[0]] + s.unsent[1..][..|sent|] == s.unsent[..|sent| + 1];
      assert forall i :: 1 <= i < |sent| + 1 ==> s.unsent[i] == s.unsent[1..][i - 1];
    }
  }

  /** With the invariant of a run that is so for every call of tcp_output(). On an idle connection
      whatever fits the window is sent, however short. */
  lemma OutputExact(c: Conf, s: Tx, p: Pace)
    requires Inv(c, s)
    ensures var (t, sent) := Output(c, s, p);
            && (sent == [] <==> Waits(c, s, p)) && Waits(c, t, p)
            && s.unsent == sent + t.unsent && (forall g :: g in sent ==> InsideWindow(s, p, g))
            && (s.unacked == [] && s.unsent != [] && InsideWindow(s, p, s.unsent[0]) ==> sent != [])
            && (HeldBack(c, s, p) ==> sent == [])
  {
    hide Output, Inv, Ahead;
    InvAhead(c, s);
    OutputSends(c, s, p);
    var n := |Output(c, s, p).1|;
    assert s.unsent == s.unsent[..n] + s.unsent[n..];
  }

  // ---------------------------------------------------------------- retransmission

  lemma RexmitAhead(c: Conf, s: Tx)
    requires Inv(c, s)
    ensures Ahead(Requeued(s)) && Ahead(Rexmit(s))
  {
    hide Merge, Chain, InsertSorted;
    var m := Line(s);
    forall g | g in s.unacked || g in s.unsent
      ensures g.TcpLen() > 0 && s.lastack <= g.seqno + |g.data| < s.lastack + 0x1_0000_0000
    {
      MergeMembers(s.unacked, s.unsent, g);
      var i :| 0 <= i < |m| && m[i] == g;
      ChainAt(m, Base(s), s.lbb + s.extra, i);
      if i > 0 { ChainOrder(m, Base(s), s.lbb + s.extra, 0, i); }
    }
    if s.unacked != [] {
      forall g | g in Rexmit(s).unsent ensures g in s.unacked || g in s.unsent {
        InsertMembers(s.unsent, s.unacked[0], g);
        assert s.unacked[0] in s.unacked;
      }
    }
  }

  /** The third duplicate acknowledgement puts the oldest unacknowledged segment back, and unless
      another retransmission is waiting it is the next one that tcp_output() sends. */
  lemma FastRetransmit(c: Conf, s: Tx, ackno: int, p: Pace)
    requires Inv(c, s) && ackno <= s.lastack && s.unacked != []
    ensures var r := AckReceived(s, ackno, true);
            && r.unacked == s.unacked[1..] && r.unsent == InsertSorted(s.unsent, s.unacked[0]) && s.unacked[0] in r.unsent
            && (RtoSafe(s) && p.force && InsideWindow(s, p, s.unacked[0]) ==>
                  Output(c, r, p).1 != [] && Output(c, r, p).1[0] == s.unacked[0])
  {
    hide Inv, Output, Ahead, InsertSorted;
    var r := Rexmit(s);
    RexmitInv(c, s);
    RexmitFields(s);
    OldAckLine(c, r, ackno);
    FreeNone(r);
    assert AckReceived(s, ackno, true) == r;
    InsertMembers(s.unsent, s.unacked[0], s.unacked[0]);
    RexmitAhead(c, s);
    OutputSends(c, r, p);
    if RtoSafe(s) {
      FirstLowest(c, s);
      InsertFront(s.unsent, s.unacked[0]);
    }
  }

  lemma FirstLowest(c: Conf, s: Tx)
    requires Inv(c, s) && s.unacked != [] && RtoSafe(s)
    ensures s.unsent != [] ==> s.unacked[0].seqno < s.unsent[0].seqno
  {
    UnackedSorted(c, s);
    assert |s.unacked| > 1 ==> s.unacked[0].seqno < Last(s.unacked).seqno;
  }

  /** The timeout sends the oldest unacknowledged segment again, whatever Nagle's algorithm says, if
      the window has room for it. */
  lemma TimeoutResends(c: Conf, s: Tx, p: Pace)
    requires Inv(c, s) && s.unacked != [] && InsideWindow(s, p, s.unacked[0])
    ensures var sent := Output(c, Requeued(s), p).1; sent != [] && sent[0] == s.unacked[0]
  {
    hide Inv, Output, Ahead;
    RexmitAhead(c, s);
    OutputSends(c, Requeued(s), p);
  }

  // ---------------------------------------------------------------- nothing is lost

  /** Closing queues a FIN behind all accepted data. */
  lemma CloseQueuesFin(c: Conf, s: Tx)
    requires Inv(c, s) && MayClose(c, s) && CloseSafe(s)
    ensures var r := Closed(c, s);
            && r.unsent != [] && Last(r.unsent).fin && Last(r.unsent).End() == s.lbb + 1 == r.lbb + r.extra
            && !r.writable
  {
  }

  /** Until it is acknowledged every accepted byte, and the FIN of a closed connection, is in a queued
      segment, so that it can be sent, or sent again. */
  lemma NothingLost(c: Conf, origin: int, l: Log, x: int) returns (g: Seg)
    requires Inv(c, l.tx) && Faithful(origin, l) && l.tx.lastack <= x
    requires x < origin + |l.accepted| + if l.tx.writable then 0 else 1
    ensures Held(l.tx, g) && g.seqno <= x < g.End()
    ensures x < origin + |l.accepted| ==> 0 <= x - origin && x - g.seqno < |g.data| && g.data[x - g.seqno] == l.accepted[x - origin]
    ensures x == origin + |l.accepted| ==> g.fin
  {
    hide Merge, Chain;
    var s := l.tx;
    g := ChainHas(Line(s), Base(s), s.lbb + s.extra, x);
    MergeMembers(s.unacked, s.unsent, g);
    assert Held(s, g);
  }

  lemma {:induction false} ChainHas(q: seq<Seg>, from: int, to: int, x: int) returns (g: Seg)
    requires Chain(q, from, to) && from <= x < to
    ensures g in q && g.seqno <= x < g.End()
    decreases |q|
  {
    g := q[0];
    if x >= g.End() { g := ChainHas(q[1..], g.End(), to, x); }
  }

  // ---------------------------------------------------------------- what the application is told

  lemma {:induction false} FinsMerge(a: seq<Seg>, b: seq<Seg>)
    ensures Fins(Merge(a, b)) == Fins(a) + Fins(b)
    decreases |a| + |b|
  {
    if a != [] && b != [] {
      if a[0].seqno < b[0].seqno {
        FinsMerge(a[1..], b);
        assert ([a[0]] + Merge(a[1..], b))[1..] == Merge(a[1..], b);
      } else {
        FinsMerge(a, b[1..]);
        assert ([b[0]] + Merge(a, b[1..]))[1..] == Merge(a, b[1..]);
      }
    }
  }

  lemma {:induction false} NoFins(q: seq<Seg>)
    requires forall g :: g in q ==> !g.fin
    ensures Fins(q) == 0
  {
    if q != [] {
      assert q[0] in q;
      NoFins(q[1..]);
    }
  }

  /** In a chain whose FINs end it there is at most one. */
  lemma {:induction false} OneFin(q: seq<Seg>, from: int, to: int)
    requires Chain(q, from, to) && forall g :: g in q && g.fin ==> g.End() == to
    ensures Fins(q) == if q != [] && Last(q).fin then 1 else 0
    decreases |q|
  {
    if |q| > 1 {
      ChainAt(q, from, to, 0);
      assert q[0] in q;
      OneFin(q[1..], q[0].End(), to);
    } else if |q| == 1 {
      assert q[1..] == [];
    }
  }

  lemma {:induction false} AckedAll(q: seq<Seg>, k: int)
    requires forall g :: g in q ==> g.End() <= k
    ensures Acked(q, k) == |q|
  {
    if q != [] {
      assert q[0] in q;
      AckedAll(q[1..], k);
    }
  }

  /** The FINs among the acknowledged segments: the one there is, when it is acknowledged. */
  lemma AckedFins(c: Conf, origin: int, l: Log, ackno: int)
    requires Inv(c, l.tx) && Faithful(origin, l) && l.tx.lastack < ackno <= l.tx.sndNxt
    ensures Fins(l.tx.unacked[..Acked(l.tx.unacked, ackno)]) + Fins(l.tx.unsent[..Acked(l.tx.unsent, ackno)])
            == if ackno > origin + |l.accepted| then 1 else 0
  {
    hide Merge, Chain, Fins, Acked;
    var s, end := l.tx, origin + |l.accepted|;
    var to := s.lbb + s.extra;
    assert forall g :: Held(s, g) && g.fin ==> g.End() == end + 1 && !s.writable;
    LineSorted(s.unacked, s.unsent, Base(s), to);
    if ackno > end {
      AckedAll(s.unacked, ackno);
      AckedAll(s.unsent, ackno);
      assert s.unacked[..|s.unacked|] == s.unacked && s.unsent[..|s.unsent|] == s.unsent;
      FinsMerge(s.unacked, s.unsent);
      FinLast(c, origin, l);
    } else {
      AckedBelow(s.unacked, ackno);
      AckedBelow(s.unsent, ackno);
      forall g | g in s.unacked[..Acked(s.unacked, ackno)] || g in s.unsent[..Acked(s.unsent, ackno)] ensures !g.fin {
        assert Held(s, g);
      }
      NoFins(s.unacked[..Acked(s.unacked, ackno)]);
      NoFins(s.unsent[..Acked(s.unsent, ackno)]);
    }
  }

  lemma FinLast(c: Conf, origin: int, l: Log)
    requires Inv(c, l.tx) && Faithful(origin, l) && !l.tx.writable && l.tx.lastack <= origin + |l.accepted|
    ensures Fins(Line(l.tx)) == 1
  {
    hide Merge, Chain, Fins;
    var s := l.tx;
    var m := Line(s);
    forall g | g in m && g.fin ensures g.End() == s.lbb + s.extra {
      MergeMembers(s.unacked, s.unsent, g);
      assert Held(s, g);
    }
    OneFin(m, Base(s), s.lbb + s.extra);
    var f := NothingLost(c, origin, l, origin + |l.accepted|);
    MergeMembers(s.unacked, s.unsent, f);
    var i :| 0 <= i < |m| && m[i] == f;
    ChainAt(m, Base(s), s.lbb + s.extra, i);
  }

  /** How many bytes the sent callback is told of, as ReceiveAck computes it. */
  function Told(s: Tx, ackno: int): int {
    if s.lastack < ackno <= s.sndNxt then
      Max(ackno - s.lastack - Fins(s.unacked[..Acked(s.unacked, ackno)]) - Fins(s.unsent[..Acked(s.unsent, ackno)]), 0)
    else 0
  }

  /** That is how many bytes of data the acknowledgement is the first to cover: the FIN does not count. */
  lemma ToldExact(c: Conf, origin: int, l: Log, ackno: int)
    requires Inv(c, l.tx) && Faithful(origin, l)
    ensures var s, end, r := l.tx, origin + |l.accepted|, AckReceived(l.tx, ackno, false);
            Told(s, ackno) == Min(r.lastack, end) - Min(s.lastack, end)
  {
    hide Merge, Chain, Fins, Acked, Clens, Held;
    var s := l.tx;
    if s.lastack < ackno <= s.sndNxt { AckedFins(c, origin, l, ackno); }
  }
}
