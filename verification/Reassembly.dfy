/** The receive half of tcp_receive() (lwip/core/tcp_in.c) on unbounded stream positions:
    first-edge trimming, in-order delivery, and the sorted out-of-sequence queue. */
module Reassembly {
  import opened Common
  import opened SeqNum

  /** A segment without SYN. `len` of the source is `|data|`. */
  datatype Segment = Segment(seqno: int, data: seq<byte>, fin: bool) {
    /** TCP_TCPLEN */
    function TcpLen(): nat { |data| + if fin then 1 else 0 }

    /** First position after the data. */
    function End(): int { seqno + |data| }

    /** First position after the data and the FIN. */
    function Edge(): int { seqno + TcpLen() }

    predicate Has(x: int) { seqno <= x < Edge() }

    /** Shorten the data (pbuf_realloc never grows) so that it ends at `x`. */
    function CutTo(x: int): Segment { this.(data := Take(data, x - seqno)) }
  }

  function Take<T>(s: seq<T>, n: int): seq<T> {
    if n < 0 then [] else if n <= |s| then s[..n] else s
  }

  datatype State = Established | FinWait1 | FinWait2 | CloseWait | Closing | LastAck | TimeWait

  /** The receive fields of a pcb; maxWnd is TCP_WND. */
  datatype Rx = Rx(rcvNxt: int, rcvWnd: u16, annWnd: u16, annEdge: int, ooseq: seq<Segment>,
                   state: State, maxWnd: u16, mss: u16)
  {
    /** state < CLOSE_WAIT */
    predicate Open() { state.Established? || state.FinWait1? || state.FinWait2? }

    function WindowEdge(): int { rcvNxt + rcvWnd }
  }

  /** What one segment hands to the application: recv_data and TF_GOT_FIN. */
  datatype Outcome = Outcome(rx: Rx, data: seq<byte>, gotFin: bool)

  /** tcp_update_rcv_ann_wnd() */
  function UpdateAnnWnd(s: Rx): (r: Rx)
    ensures r == s.(annWnd := r.annWnd)
  {
    if s.WindowEdge() >= s.annEdge + Min(s.maxWnd / 2, s.mss) then s.(annWnd := s.rcvWnd)
    else if s.rcvNxt > s.annEdge then s.(annWnd := 0)
    else s.(annWnd := Low16(s.annEdge - s.rcvNxt))
  }

  /** Drop the bytes below rcv_nxt when rcv_nxt falls inside the segment. */
  function TrimFront(rcvNxt: int, g: Segment): Segment {
    if g.seqno + 1 <= rcvNxt <= g.Edge() - 1 then Segment(rcvNxt, g.data[rcvNxt - g.seqno..], g.fin) else g
  }

  /** Remove every queued segment that `g` covers, taking over a FIN. */
  function Absorb(g: Segment, q: seq<Segment>): (r: (Segment, seq<Segment>))
    ensures r.0.seqno == g.seqno && r.0.data == g.data
    decreases |q|
  {
    if q != [] && g.Edge() >= q[0].End() then Absorb(g.(fin := g.fin || q[0].fin), q[1..]) else (g, q)
  }

  /** The part of an in-sequence segment that fits the window and does not overlap the queue,
      and the queue that remains. */
  function FitInOrder(s: Rx, g: Segment): (Segment, seq<Segment>) {
    var w := if g.TcpLen() > s.rcvWnd then Segment(g.seqno, Take(g.data, s.rcvWnd), false) else g;
    if s.ooseq == [] || w.fin then (w, [])
    else
      var (a, q) := Absorb(w, s.ooseq);
      (if q != [] && a.Edge() > q[0].seqno then a.CutTo(q[0].seqno) else a, q)
  }

  /** Advance over `n` sequence numbers. */
  function Advance(s: Rx, n: nat): (r: Rx)
    ensures r == s.(rcvNxt := s.rcvNxt + n, rcvWnd := Low16(s.rcvWnd - n), annWnd := r.annWnd)
  {
    UpdateAnnWnd(s.(rcvNxt := s.rcvNxt + n, rcvWnd := Low16(s.rcvWnd - n)))
  }

  /** One step of the drain loop. */
  function DrainStep(s: Rx): (r: Rx)
    requires s.ooseq != []
    ensures r.rcvNxt == s.rcvNxt + s.ooseq[0].TcpLen() && r.ooseq == s.ooseq[1..]
  {
    var c := s.ooseq[0];
    var s1 := Advance(s, c.TcpLen());
    (if c.fin && s.state.Established? then s1.(state := CloseWait) else s1).(ooseq := s.ooseq[1..])
  }

  /** Hand over queued segments that have become contiguous. */
  function Drain(s: Rx, data: seq<byte>, gotFin: bool): Outcome
    decreases |s.ooseq|
  {
    if s.ooseq != [] && s.ooseq[0].seqno == s.rcvNxt then
      Drain(DrainStep(s), data + s.ooseq[0].data, gotFin || s.ooseq[0].fin)
    else Outcome(s, data, gotFin)
  }

  /** Accept `a`, leaving `q` queued, and drain. */
  function Accept(s: Rx, a: Segment, q: seq<Segment>): Outcome {
    Drain(Advance(s, a.TcpLen()).(ooseq := q), a.data, a.fin)
  }

  function InOrder(s: Rx, g: Segment): Outcome {
    var (a, q) := FitInOrder(s, g);
    Accept(s, a, q)
  }

  /** The deletion loop of tcp_oos_insert_segment(). */
  function DropCovered(g: Segment, q: seq<Segment>): (r: (Segment, seq<Segment>))
    ensures r.0.seqno == g.seqno && r.0.data == g.data
    decreases |q|
  {
    if q != [] && g.End() >= q[0].End() then DropCovered(g.(fin := g.fin || q[0].fin), q[1..]) else (g, q)
  }

  /** tcp_oos_insert_segment() */
  function Splice(g: Segment, q: seq<Segment>): seq<Segment> {
    if g.fin then [g]
    else
      var (a, r) := DropCovered(g, q);
      [if r != [] && a.End() > r[0].seqno then a.CutTo(r[0].seqno) else a] + r
  }

  /** The window check made on the one path that appends to a non-empty queue. */
  function FitEdge(g: Segment, edge: int): Segment {
    if g.Edge() > edge then Segment(g.seqno, Take(g.data, edge - g.seqno), false) else g
  }

  /** The walk over the queue after its head `p`; g.seqno is above p.seqno. `ok` says whether
      tcp_seg_copy() finds memory. */
  function InsertAfter(p: Segment, q: seq<Segment>, g: Segment, ok: bool, edge: int): seq<Segment>
    decreases |q|
  {
    if q == [] then
      if p.fin || !ok then [p] else [p.CutTo(g.seqno), FitEdge(g, edge)]
    else if g.seqno == q[0].seqno then
      [p] + if |g.data| > |q[0].data| && ok then Splice(g, q) else q
    else if g.seqno < q[0].seqno then
      if ok then [p.CutTo(g.seqno)] + Splice(g, q) else [p] + q
    else [p] + InsertAfter(q[0], q[1..], g, ok, edge)
  }

  /** Queue an out-of-sequence segment. */
  function Insert(q: seq<Segment>, g: Segment, ok: bool, edge: int): seq<Segment> {
    if q == [] then if ok then [g] else []
    else if g.seqno == q[0].seqno then if |g.data| > |q[0].data| && ok then Splice(g, q) else q
    else if g.seqno < q[0].seqno then if ok then Splice(g, q) else q
    else InsertAfter(q[0], q[1..], g, ok, edge)
  }

  /** The data part of tcp_receive() for one arriving segment. */
  function Receive(s: Rx, seg: Segment, ok: bool): Outcome {
    if seg.TcpLen() == 0 || !s.Open() then Outcome(s, [], false)
    else
      var g := TrimFront(s.rcvNxt, seg);
      if !(s.rcvNxt <= g.seqno <= s.WindowEdge() - 1) then Outcome(s, [], false)
      else if g.seqno == s.rcvNxt then InOrder(s, g)
      else Outcome(s.(ooseq := Insert(s.ooseq, g, ok, s.WindowEdge())), [], false)
  }

  // ---------------------------------------------------------------- the peer's stream

  /** The one byte stream the peer sends, its first byte at position `start`; a FIN follows it. */
  datatype Peer = Peer(start: int, stream: seq<byte>) {
    function End(): int { start + |stream| }

    predicate Sent(g: Segment) {
      && start <= g.seqno && g.End() <= End()
      && g.data == stream[g.seqno - start..g.End() - start]
      && (g.fin ==> g.End() == End())
    }
  }

  /** The queue is strictly sorted from `low` on, pairwise disjoint, made of non-empty pieces of
      the peer's stream, and has a FIN on its last element only. */
  ghost predicate Queue(peer: Peer, q: seq<Segment>, low: int) {
    q == [] ||
    (&& low <= q[0].seqno && q[0].TcpLen() > 0 && peer.Sent(q[0])
     && (q[0].fin ==> |q| == 1)
     && Queue(peer, q[1..], q[0].End())
     && (|q| > 1 ==> q[0].seqno < q[1].seqno))
  }

  /** Some queued segment holds position `x`. */
  ghost predicate Covers(q: seq<Segment>, x: int) {
    q != [] && (q[0].Has(x) || Covers(q[1..], x))
  }

  // ---------------------------------------------------------------- queue lemmas

  lemma QueueLow(peer: Peer, q: seq<Segment>, low: int, low': int)
    requires Queue(peer, q, low)
    requires q != [] ==> low' <= q[0].seqno
    ensures Queue(peer, q, low')
  {
  }

  lemma Cons(peer: Peer, h: Segment, t: seq<Segment>, low: int, from: int, x: int)
    ensures Covers([h] + t, x) <==> h.Has(x) || Covers(t, x)
    ensures CoversFrom([h] + t, from, x) <==> (h.seqno >= from && h.Has(x)) || CoversFrom(t, from, x)
    ensures Queue(peer, [h] + t, low) <==>
      && low <= h.seqno && h.TcpLen() > 0 && peer.Sent(h) && (h.fin ==> t == [])
      && Queue(peer, t, h.End()) && (t != [] ==> h.seqno < t[0].seqno)
    ensures !Covers([], x) && !CoversFrom([], from, x) && Queue(peer, [], low)
  {
    assert ([h] + t)[1..] == t;
  }

  lemma Head(peer: Peer, q: seq<Segment>, low: int)
    requires Queue(peer, q, low) && q != []
    ensures low <= q[0].seqno && q[0].TcpLen() > 0 && peer.Sent(q[0])
  {
  }

  /** Nothing is queued below the low mark. */
  lemma {:induction false} CoversAbove(peer: Peer, q: seq<Segment>, low: int, x: int)
    requires Queue(peer, q, low) && Covers(q, x)
    ensures low <= x && x <= peer.End()
  {
    if q[0].Has(x) {
    } else {
      CoversAbove(peer, q[1..], q[0].End(), x);
    }
  }

  lemma SentCut(peer: Peer, g: Segment, x: int)
    requires peer.Sent(g) && !g.fin && g.seqno <= x
    ensures peer.Sent(g.CutTo(x)) && g.CutTo(x).End() == Min(x, g.End())
  {
  }

  lemma SentTrimFront(peer: Peer, rcvNxt: int, g: Segment)
    requires peer.Sent(g)
    ensures peer.Sent(TrimFront(rcvNxt, g))
    ensures var t := TrimFront(rcvNxt, g); t.Edge() == g.Edge() && t.seqno >= g.seqno
    ensures g.seqno < rcvNxt < g.Edge() ==> TrimFront(rcvNxt, g).seqno == rcvNxt
  {
  }

  /** tcp_oos_insert_segment() keeps the queue well formed, and afterwards exactly the positions
      of the new segment and of the old queue from its start on are covered. */
  lemma {:induction false} SpliceQueue(peer: Peer, g: Segment, q: seq<Segment>, x: int)
    requires peer.Sent(g) && g.TcpLen() > 0
    requires Queue(peer, q, g.seqno)
    requires q != [] && q[0].seqno == g.seqno ==> |g.data| > |q[0].data|
    ensures var r := Splice(g, q); Queue(peer, r, g.seqno) && r != [] && r[0].seqno == g.seqno
    ensures Covers(Splice(g, q), x) <==> g.Has(x) || Covers(q, x)
  {
    if g.fin {
      assert Covers([g], x) == g.Has(x) by { assert [g][1..] == []; }
      assert Queue(peer, [g], g.seqno);
      if Covers(q, x) { CoversAbove(peer, q, g.seqno, x); }
    } else {
      DropCoveredQueue(peer, g, q, x);
      var (a, r) := DropCovered(g, q);
      var h := if r != [] && a.End() > r[0].seqno then a.CutTo(r[0].seqno) else a;
      assert ([h] + r)[1..] == r;
      if r != [] {
        SentCut(peer, a, r[0].seqno);
        if a.Has(x) && !h.Has(x) { assert r[0].Has(x); }
      }
    }
  }

  lemma {:induction false} DropCoveredQueue(peer: Peer, g: Segment, q: seq<Segment>, x: int)
    requires peer.Sent(g) && g.TcpLen() > 0
    requires Queue(peer, q, g.seqno)
    requires g.fin ==> q == []
    requires q != [] && q[0].seqno == g.seqno ==> |g.data| > |q[0].data|
    ensures var (a, r) := DropCovered(g, q);
            && peer.Sent(a) && a.TcpLen() > 0 && (a.fin ==> r == [])
            && Queue(peer, r, g.seqno)
            && (r != [] ==> g.seqno < r[0].seqno && a.End() < r[0].End())
            && (a.Has(x) || Covers(r, x) <==> g.Has(x) || Covers(q, x))
    decreases |q|
  {
    if q != [] && g.End() >= q[0].End() {
      var g' := g.(fin := g.fin || q[0].fin);
      if q[0].fin { assert q[1..] == []; }
      QueueLow(peer, q[1..], q[0].End(), g.seqno);
      DropCoveredQueue(peer, g', q[1..], x);
    }
  }

  /** Covered in the queue after inserting `g` behind `p`: below g as before; inside g always;
      beyond g only by segments that start at or above g. */
  lemma {:induction false} InsertAfterQueue(peer: Peer, p: Segment, q: seq<Segment>, g: Segment, ok: bool, edge: int, low: int)
    requires peer.Sent(g) && g.TcpLen() > 0
    requires Queue(peer, [p] + q, low) && p.seqno < g.seqno < edge
    ensures var r := InsertAfter(p, q, g, ok, edge);
            Queue(peer, r, low) && r != [] && r[0].seqno == p.seqno
    decreases |q|
  {
    hide Splice, Queue, Covers, CoversFrom;
    Cons(peer, p, q, low, 0, 0);
    var r := InsertAfter(p, q, g, ok, edge);
    if q == [] {
      assert [p] + q == [p];
      if !p.fin && ok { AppendQueue(peer, p, g, edge, low); }
    } else if g.seqno <= q[0].seqno {
      Head(peer, q, p.End());
      if ok && (g.seqno < q[0].seqno || |g.data| > |q[0].data|) {
        QueueLow(peer, q, p.End(), g.seqno);
        SpliceQueue(peer, g, q, 0);
        SentCut(peer, p, g.seqno);
        QueueLow(peer, Splice(g, q), g.seqno, p.CutTo(g.seqno).End());
        Cons(peer, p.CutTo(g.seqno), Splice(g, q), low, 0, 0);
        assert g.seqno == q[0].seqno ==> p.CutTo(g.seqno) == p;
      }
    } else {
      assert q == [q[0]] + q[1..];
      InsertAfterQueue(peer, q[0], q[1..], g, ok, edge, p.End());
      Cons(peer, p, InsertAfter(q[0], q[1..], g, ok, edge), low, 0, 0);
    }
  }

  lemma AppendQueue(peer: Peer, p: Segment, g: Segment, edge: int, low: int)
    requires peer.Sent(g) && g.TcpLen() > 0
    requires Queue(peer, [p], low) && p.seqno < g.seqno < edge && !p.fin
    ensures Queue(peer, [p.CutTo(g.seqno), FitEdge(g, edge)], low)
  {
    SentCut(peer, p, g.seqno);
    var f := FitEdge(g, edge);
    assert [p.CutTo(g.seqno), f] == [p.CutTo(g.seqno)] + [f] && [f] == [f] + [];
    Cons(peer, f, [], p.CutTo(g.seqno).End(), 0, 0);
    Cons(peer, p.CutTo(g.seqno), [f], low, 0, 0);
  }

  /** Every insertion keeps the queue well formed, whether or not memory is found. */
  lemma InsertQueue(peer: Peer, q: seq<Segment>, g: Segment, ok: bool, edge: int, low: int)
    requires peer.Sent(g) && g.TcpLen() > 0
    requires Queue(peer, q, low) && low <= g.seqno < edge
    ensures Queue(peer, Insert(q, g, ok, edge), low)
  {
    if q == [] {
      assert [g][1..] == [];
    } else if g.seqno <= q[0].seqno {
      QueueLow(peer, q, low, g.seqno);
      if g.seqno < q[0].seqno || |g.data| > |q[0].data| { SpliceQueue(peer, g, q, 0); }
      if ok { QueueLow(peer, Insert(q, g, ok, edge), g.seqno, low); }
    } else {
      assert q == [q[0]] + q[1..];
      InsertAfterQueue(peer, q[0], q[1..], g, ok, edge, low);
    }
  }

  // ---------------------------------------------------------------- what an insertion covers

  /** Some queued segment starting at `from` or later holds `x`. */
  ghost predicate CoversFrom(q: seq<Segment>, from: int, x: int) {
    q != [] && ((q[0].seqno >= from && q[0].Has(x)) || CoversFrom(q[1..], from, x))
  }

  /** The segment is ditched: one with its sequence number and no less data is queued, or the
      queue ends below it with a FIN. */
  ghost predicate Ditched(q: seq<Segment>, g: Segment) {
    q != [] &&
    (|| (q[0].seqno == g.seqno && |g.data| <= |q[0].data|)
     || (|q| == 1 && q[0].fin && q[0].seqno < g.seqno)
     || (q[0].seqno < g.seqno && Ditched(q[1..], g)))
  }

  /** The segment goes behind the last one. */
  ghost predicate Appended(q: seq<Segment>, g: Segment) { q != [] && q[|q| - 1].seqno < g.seqno }

  /** The coverage of the queue after inserting `g`, which is cut to the window when it is appended. */
  ghost predicate Merged(q: seq<Segment>, g: Segment, edge: int, x: int) {
    || (x < g.seqno && Covers(q, x))
    || (g.Has(x) && (x < edge || !Appended(q, g)))
    || CoversFrom(q, g.seqno, x)
  }

  lemma {:induction false} QueueOrder(peer: Peer, q: seq<Segment>, low: int, i: nat)
    requires Queue(peer, q, low) && i < |q|
    ensures q[0].seqno <= q[i].seqno
    decreases i
  {
    if i > 0 { QueueOrder(peer, q[1..], q[0].End(), i - 1); }
  }

  lemma {:induction false} CoversFromAll(peer: Peer, q: seq<Segment>, low: int, from: int, x: int)
    requires Queue(peer, q, low) && from <= low
    ensures CoversFrom(q, from, x) <==> Covers(q, x)
  {
    if q != [] { CoversFromAll(peer, q[1..], q[0].End(), from, x); }
  }

  lemma AppendCovers(peer: Peer, p: Segment, g: Segment, edge: int, low: int, x: int)
    requires peer.Sent(g) && g.TcpLen() > 0
    requires Queue(peer, [p], low) && p.seqno < g.seqno < edge
    ensures Ditched([p], g) <==> p.fin
    ensures var r := [p.CutTo(g.seqno), FitEdge(g, edge)];
            !p.fin ==> (Covers(r, x) <==> Merged([p], g, edge, x))
  {
    var f := FitEdge(g, edge);
    assert [p.CutTo(g.seqno), f] == [p.CutTo(g.seqno)] + [f] && [f] == [f] + [] && [p] == [p] + [];
    Cons(peer, f, [], low, g.seqno, x);
    Cons(peer, p.CutTo(g.seqno), [f], low, g.seqno, x);
    Cons(peer, p, [], low, g.seqno, x);
  }

  /** The segment goes between `p` and the head of the rest. */
  lemma BetweenCovers(peer: Peer, p: Segment, q: seq<Segment>, g: Segment, low: int, x: int)
    requires peer.Sent(g) && g.TcpLen() > 0 && q != [] && p.seqno < g.seqno <= q[0].seqno
    requires Queue(peer, [p] + q, low) && (g.seqno == q[0].seqno ==> |g.data| > |q[0].data|)
    ensures !Appended([p] + q, g)
    ensures Covers([p.CutTo(g.seqno)] + Splice(g, q), x) <==>
      (x < g.seqno && Covers([p] + q, x)) || g.Has(x) || CoversFrom([p] + q, g.seqno, x)
  {
    hide Splice, Queue, Covers, CoversFrom;
    Cons(peer, p, q, low, g.seqno, x);
    Head(peer, q, p.End());
    QueueOrder(peer, q, p.End(), |q| - 1);
    QueueLow(peer, q, p.End(), g.seqno);
    CoversFromAll(peer, q, g.seqno, g.seqno, x);
    if Covers(q, x) { CoversAbove(peer, q, g.seqno, x); }
    SpliceQueue(peer, g, q, x);
    Cons(peer, p.CutTo(g.seqno), Splice(g, q), low, g.seqno, x);
  }

  lemma {:induction false} InsertAfterCovers(peer: Peer, p: Segment, q: seq<Segment>, g: Segment, ok: bool, edge: int, low: int, x: int)
    requires peer.Sent(g) && g.TcpLen() > 0
    requires Queue(peer, [p] + q, low) && p.seqno < g.seqno < edge
    ensures var r := InsertAfter(p, q, g, ok, edge);
            if !ok || Ditched([p] + q, g) then r == [p] + q
            else Covers(r, x) <==> Merged([p] + q, g, edge, x)
    decreases |q|
  {
    hide Splice, Queue, Covers, CoversFrom, Peer.Sent;
    Cons(peer, p, q, low, g.seqno, x);
    assert ([p] + q)[1..] == q;
    if q == [] {
      assert [p] + q == [p];
      AppendCovers(peer, p, g, edge, low, x);
    } else if g.seqno <= q[0].seqno {
      assert Ditched([p] + q, g) == Ditched(q, g);
      Head(peer, q, p.End());
      if ok && (g.seqno < q[0].seqno || |g.data| > |q[0].data|) {
        BetweenCovers(peer, p, q, g, low, x);
        assert g.seqno == q[0].seqno ==> p.CutTo(g.seqno) == p;
      }
    } else {
      assert q == [q[0]] + q[1..];
      assert Ditched([p] + q, g) == Ditched(q, g);
      Head(peer, q, p.End());
      InsertAfterCovers(peer, q[0], q[1..], g, ok, edge, p.End(), x);
      Cons(peer, p, InsertAfter(q[0], q[1..], g, ok, edge), low, g.seqno, x);
    }
  }

  /** What the queue holds after an insertion. A segment that is ditched, or for which there is no
      memory, leaves it alone. Otherwise all of the segment is held, as far as the window goes when it is
      appended; everything below it is kept, and above it only the tail of the one segment it cut into
      is lost. */
  lemma InsertCovers(peer: Peer, q: seq<Segment>, g: Segment, ok: bool, edge: int, low: int, x: int)
    requires peer.Sent(g) && g.TcpLen() > 0
    requires Queue(peer, q, low) && low <= g.seqno < edge
    ensures var r := Insert(q, g, ok, edge);
            if !ok || Ditched(q, g) then r == q
            else Covers(r, x) <==> Merged(q, g, edge, x)
  {
    if q == [] {
      assert [g][1..] == [];
    } else if g.seqno <= q[0].seqno {
      QueueOrder(peer, q, low, |q| - 1);
      QueueLow(peer, q, low, g.seqno);
      CoversFromAll(peer, q, g.seqno, g.seqno, x);
      if Covers(q, x) { CoversAbove(peer, q, g.seqno, x); }
      if g.seqno < q[0].seqno || |g.data| > |q[0].data| { SpliceQueue(peer, g, q, x); }
    } else {
      assert q == [q[0]] + q[1..];
      InsertAfterCovers(peer, q[0], q[1..], g, ok, edge, low, x);
    }
  }

  // ---------------------------------------------------------------- in-order delivery

  /** The peer's bytes at positions [a, b), as far as the stream reaches. */
  function Bytes(peer: Peer, a: int, b: int): seq<byte>
    requires peer.start <= a
  {
    if a < Min(b, peer.End()) then peer.stream[a - peer.start..Min(b, peer.End()) - peer.start] else []
  }

  lemma BytesJoin(peer: Peer, a: int, b: int, c: int)
    requires peer.start <= a <= b <= c
    ensures Bytes(peer, a, b) + Bytes(peer, b, c) == Bytes(peer, a, c)
  {
  }

  lemma BytesAppend(peer: Peer, data: seq<byte>, c: Segment, b: int)
    requires peer.Sent(c) && c.Edge() <= b
    ensures data + c.data + Bytes(peer, c.Edge(), b) == data + Bytes(peer, c.seqno, b)
  {
    BytesSent(peer, c);
    BytesJoin(peer, c.seqno, c.Edge(), b);
    assert data + c.data + Bytes(peer, c.Edge(), b) == data + (c.data + Bytes(peer, c.Edge(), b));
  }

  lemma BytesSent(peer: Peer, g: Segment)
    requires peer.Sent(g)
    ensures g.data == Bytes(peer, g.seqno, g.Edge())
  {
  }

  /** Draining moves rcv_nxt over positions the queue held, and leaves queued exactly what lies
      strictly above it. */
  lemma {:induction false} DrainCovers(peer: Peer, s: Rx, data: seq<byte>, fin: bool, x: int)
    requires Queue(peer, s.ooseq, s.rcvNxt) && s.rcvNxt <= peer.End() + 1
    ensures var r := Drain(s, data, fin).rx;
            && s.rcvNxt <= r.rcvNxt <= peer.End() + 1
            && Queue(peer, r.ooseq, r.rcvNxt + 1)
            && (s.rcvNxt <= x < r.rcvNxt ==> Covers(s.ooseq, x))
            && (Covers(r.ooseq, x) <==> Covers(s.ooseq, x) && r.rcvNxt <= x)
    decreases |s.ooseq|
  {
    if s.ooseq != [] && s.ooseq[0].seqno == s.rcvNxt {
      var c := s.ooseq[0];
      if c.fin { assert s.ooseq[1..] == []; }
      DrainCovers(peer, DrainStep(s), data + c.data, fin || c.fin, x);
    } else if Covers(s.ooseq, x) {
      CoversAbove(peer, s.ooseq, s.rcvNxt, x);
    }
  }

  /** Draining hands over, in order, exactly the bytes rcv_nxt moves over. */
  lemma {:induction false} DrainData(peer: Peer, s: Rx, data: seq<byte>, fin: bool)
    requires Queue(peer, s.ooseq, s.rcvNxt) && peer.start <= s.rcvNxt <= peer.End() + 1
    ensures var o := Drain(s, data, fin);
            && s.rcvNxt <= o.rx.rcvNxt
            && o.data == data + Bytes(peer, s.rcvNxt, o.rx.rcvNxt)
            && (o.gotFin <==> fin || s.rcvNxt <= peer.End() < o.rx.rcvNxt)
    decreases |s.ooseq|
  {
    hide DrainStep;
    if s.ooseq != [] && s.ooseq[0].seqno == s.rcvNxt {
      var c := s.ooseq[0];
      var t := DrainStep(s);
      if c.fin { assert s.ooseq[1..] == []; }
      DrainData(peer, t, data + c.data, fin || c.fin);
      var o := Drain(t, data + c.data, fin || c.fin);
      BytesAppend(peer, data, c, o.rx.rcvNxt);
    }
  }

  lemma {:induction false} AbsorbQueue(peer: Peer, g: Segment, q: seq<Segment>, x: int)
    requires peer.Sent(g) && g.TcpLen() > 0 && Queue(peer, q, g.seqno + 1)
    requires g.fin ==> q == []
    ensures var (a, r) := Absorb(g, q);
            && peer.Sent(a) && a.TcpLen() > 0 && (a.fin ==> r == [])
            && Queue(peer, r, g.seqno + 1)
            && (r != [] ==> a.Edge() < r[0].End())
            && (Covers(r, x) ==> Covers(q, x))
            && (a.Has(x) || Covers(r, x) <==> g.Has(x) || Covers(q, x))
    decreases |q|
  {
    if q != [] && g.Edge() >= q[0].End() {
      var g' := g.(fin := g.fin || q[0].fin);
      if q[0].fin { assert q[1..] == []; }
      QueueLow(peer, q[1..], q[0].End(), g.seqno + 1);
      AbsorbQueue(peer, g', q[1..], x);
    }
  }

  /** The segment as far as the window admits it. */
  function InWindow(s: Rx, g: Segment): Segment {
    if g.TcpLen() > s.rcvWnd then Segment(g.seqno, Take(g.data, s.rcvWnd), false) else g
  }

  /** What FitInOrder leaves: a piece of the stream from rcv_nxt on, the queue beyond it, and together
      the positions that the segment inside the window and the queue held. */
  ghost predicate Fits(peer: Peer, s: Rx, w: Segment, a: Segment, q: seq<Segment>, x: int) {
    && peer.Sent(a) && a.seqno == s.rcvNxt && a.TcpLen() > 0
    && Queue(peer, q, a.Edge())
    && (Covers(q, x) ==> Covers(s.ooseq, x))
    && (a.Has(x) || Covers(q, x) <==> w.Has(x) || Covers(s.ooseq, x))
  }

  lemma InWindowSent(peer: Peer, s: Rx, g: Segment)
    requires peer.Sent(g) && g.TcpLen() > 0 && g.seqno == s.rcvNxt && s.rcvWnd > 0
    ensures var w := InWindow(s, g); peer.Sent(w) && w.TcpLen() > 0 && w.seqno == s.rcvNxt
  {
  }

  /** Nothing is queued, or the segment ends the stream: the queue is dropped. */
  lemma FitsAlone(peer: Peer, s: Rx, w: Segment, x: int)
    requires peer.Sent(w) && w.TcpLen() > 0 && w.seqno == s.rcvNxt
    requires Queue(peer, s.ooseq, s.rcvNxt + 1) && (s.ooseq == [] || w.fin)
    ensures Fits(peer, s, w, w, [], x)
  {
    if Covers(s.ooseq, x) { CoversAbove(peer, s.ooseq, s.rcvNxt + 1, x); }
  }

  /** The segment ends at or below the head of what remains. */
  lemma FitsWhole(peer: Peer, s: Rx, w: Segment, x: int)
    requires peer.Sent(w) && w.TcpLen() > 0 && w.seqno == s.rcvNxt && !w.fin
    requires Queue(peer, s.ooseq, s.rcvNxt + 1)
    ensures var (a, q) := Absorb(w, s.ooseq); q == [] || a.Edge() <= q[0].seqno ==> Fits(peer, s, w, a, q, x)
  {
    hide Absorb, Covers;
    AbsorbQueue(peer, w, s.ooseq, x);
    var (a, q) := Absorb(w, s.ooseq);
    if q != [] && a.Edge() <= q[0].seqno { QueueLow(peer, q, w.seqno + 1, a.Edge()); }
  }

  /** It runs into the head and is cut. */
  lemma FitsCut(peer: Peer, s: Rx, w: Segment, x: int)
    requires peer.Sent(w) && w.TcpLen() > 0 && w.seqno == s.rcvNxt && !w.fin
    requires Queue(peer, s.ooseq, s.rcvNxt + 1)
    ensures var (a, q) := Absorb(w, s.ooseq);
            q != [] && a.Edge() > q[0].seqno ==> Fits(peer, s, w, a.CutTo(q[0].seqno), q, x)
  {
    hide Absorb, Covers;
    AbsorbQueue(peer, w, s.ooseq, x);
    var (a, q) := Absorb(w, s.ooseq);
    if q != [] && a.Edge() > q[0].seqno {
      Head(peer, q, w.seqno + 1);
      SentCut(peer, a, q[0].seqno);
      HeadCovers(q, x);
      QueueLow(peer, q, w.seqno + 1, q[0].seqno);
    }
  }

  lemma HeadCovers(q: seq<Segment>, x: int)
    requires q != []
    ensures q[0].Has(x) ==> Covers(q, x)
  {
  }

  lemma FitInOrderQueue(peer: Peer, s: Rx, g: Segment, x: int)
    requires peer.Sent(g) && g.TcpLen() > 0 && g.seqno == s.rcvNxt && s.rcvWnd > 0
    requires Queue(peer, s.ooseq, s.rcvNxt + 1)
    ensures var (a, q) := FitInOrder(s, g); Fits(peer, s, InWindow(s, g), a, q, x)
  {
    hide Absorb, Queue, Fits, Peer.Sent;
    InWindowSent(peer, s, g);
    var w := InWindow(s, g);
    if s.ooseq == [] || w.fin {
      FitsAlone(peer, s, w, x);
    } else {
      FitsWhole(peer, s, w, x);
      FitsCut(peer, s, w, x);
    }
  }

  /** An in-sequence segment moves rcv_nxt to the first position that neither the segment inside
      the window nor the queue holds; the queue keeps exactly what lies beyond. */
  lemma InOrderCovers(peer: Peer, s: Rx, g: Segment, x: int)
    requires peer.Sent(g) && g.TcpLen() > 0 && g.seqno == s.rcvNxt && s.rcvWnd > 0
    requires Queue(peer, s.ooseq, s.rcvNxt + 1)
    ensures var r := InOrder(s, g).rx;
            && s.rcvNxt < r.rcvNxt <= peer.End() + 1
            && Queue(peer, r.ooseq, r.rcvNxt + 1)
            && (s.rcvNxt <= x < r.rcvNxt ==> InWindow(s, g).Has(x) || Covers(s.ooseq, x))
            && (x == r.rcvNxt ==> !InWindow(s, g).Has(x) && !Covers(s.ooseq, x))
            && (Covers(r.ooseq, x) <==> Covers(s.ooseq, x) && r.rcvNxt <= x)
  {
    FitInOrderQueue(peer, s, g, x);
    var (a, q) := FitInOrder(s, g);
    DrainCovers(peer, Advance(s, a.TcpLen()).(ooseq := q), a.data, a.fin, x);
    var r := Accept(s, a, q).rx;
    if Covers(r.ooseq, x) { CoversAbove(peer, r.ooseq, r.rcvNxt + 1, x); }
  }

  lemma AcceptData(peer: Peer, s: Rx, a: Segment, q: seq<Segment>)
    requires peer.Sent(a) && a.seqno == s.rcvNxt && a.TcpLen() > 0 && Queue(peer, q, a.Edge())
    ensures var o := Accept(s, a, q);
            && s.rcvNxt < o.rx.rcvNxt
            && o.data == Bytes(peer, s.rcvNxt, o.rx.rcvNxt)
            && (o.gotFin <==> o.rx.rcvNxt > peer.End())
  {
    hide Advance, Drain, Low16, Bytes;
    var s1 := Advance(s, a.TcpLen()).(ooseq := q);
    assert s1.rcvNxt == a.Edge() && s1.ooseq == q;
    DrainData(peer, s1, a.data, a.fin);
    BytesAppend(peer, [], a, Drain(s1, a.data, a.fin).rx.rcvNxt);
    assert [] + a.data == a.data;
    assert [] + Bytes(peer, s.rcvNxt, Drain(s1, a.data, a.fin).rx.rcvNxt) == Bytes(peer, s.rcvNxt, Drain(s1, a.data, a.fin).rx.rcvNxt);
  }

  /** ... and hands up, in order, exactly the bytes rcv_nxt passes, with the FIN once it passes
      the end of the stream. */
  lemma InOrderData(peer: Peer, s: Rx, g: Segment)
    requires peer.Sent(g) && g.TcpLen() > 0 && g.seqno == s.rcvNxt && s.rcvWnd > 0
    requires Queue(peer, s.ooseq, s.rcvNxt + 1)
    ensures var o := InOrder(s, g);
            && s.rcvNxt < o.rx.rcvNxt
            && o.data == Bytes(peer, s.rcvNxt, o.rx.rcvNxt)
            && (o.gotFin <==> o.rx.rcvNxt > peer.End())
  {
    FitInOrderQueue(peer, s, g, 0);
    var (a, q) := FitInOrder(s, g);
    AcceptData(peer, s, a, q);
  }
}
