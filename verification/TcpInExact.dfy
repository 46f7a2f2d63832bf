/** The receive code on 32-bit fields against unbounded positions: when every function of module TcpIn
    does what module Reassembly says, and what follows for whole runs. */
module TcpInExact {
  import opened Common
  import opened SeqNum
  import opened TcpIn
  import R = Reassembly
  import Runs = ReceiveRuns

  function Image(g: R.Segment): TcpSeg {
    TcpSeg(Wrap(g.seqno), Low16(|g.data|), g.data, g.fin)
  }

  function Images(q: seq<R.Segment>): (r: seq<TcpSeg>)
    ensures |r| == |q| && forall i :: 0 <= i < |q| ==> r[i] == Image(q[i])
  {
    seq(|q|, i requires 0 <= i < |q| => Image(q[i]))
  }

  /** A segment of at most 64k that lies between `base` and `base` + 2^18. */
  ghost predicate InSpan(g: R.Segment, base: int) {
    |g.data| < 0x1_0000 && base <= g.seqno && g.Edge() <= base + 0x4_0000
  }

  ghost predicate Close(q: seq<R.Segment>, base: int) {
    forall i :: 0 <= i < |q| ==> InSpan(q[i], base)
  }

  lemma EndExact(g: R.Segment)
    requires |g.data| < 0x1_0000
    ensures Image(g).len == |g.data|
    ensures Wrap(Image(g).seqno + Image(g).len) == Wrap(g.End())
    ensures Wrap(Image(g).seqno + Image(g).TcpLen()) == Wrap(g.Edge())
  {
    AddWrap(g.seqno, |g.data|);
    AddWrap(g.seqno, g.TcpLen());
  }

  lemma CutExact(g: R.Segment, x: int)
    requires 0 <= x - g.seqno < 0x1_0000 && x <= g.End() && |g.data| < 0x1_0000
    ensures Image(g).Shorten(Low16(Wrap(Wrap(x) - Image(g).seqno))) == Image(g.CutTo(x))
  {
    SubWrap(x, g.seqno);
  }

  lemma EndOrder(a: R.Segment, h: R.Segment, base: int)
    requires InSpan(a, base) && InSpan(h, base)
    ensures Image(a).ReachesEndOf(Image(h)) <==> a.End() >= h.End()
    ensures Image(a).Passes(Image(h)) <==> a.End() > h.seqno
    ensures Image(a).EdgeReachesEndOf(Image(h)) <==> a.Edge() >= h.End()
    ensures Image(a).EdgePasses(Image(h)) <==> a.Edge() > h.seqno
  {
    hide Wrap, Low16, Geq, Gt;
    EndExact(a);
    EndExact(h);
    OrderExact(a.End(), h.End());
    OrderExact(a.End(), h.seqno);
    OrderExact(a.Edge(), h.End());
    OrderExact(a.Edge(), h.seqno);
  }

  lemma ImagesCons(h: R.Segment, t: seq<R.Segment>)
    ensures Images([h] + t) == [Image(h)] + Images(t)
    ensures Images([h]) == [Image(h)]
  {
  }

  /** The head and the rest of a queue and of its image. */
  lemma HeadAndRest(peer: R.Peer, q: seq<R.Segment>, low: int, base: int)
    requires q != [] && R.Queue(peer, q, low) && Close(q, base)
    ensures Images(q)[0] == Image(q[0]) && Images(q)[1..] == Images(q[1..])
    ensures InSpan(q[0], base) && Close(q[1..], base)
    ensures low <= q[0].seqno && peer.Sent(q[0]) && R.Queue(peer, q[1..], q[0].End()) && (q[0].fin ==> q[1..] == [])
  {
  }

  function Shown(s: R.Rx): Rcv {
    Rcv(Wrap(s.rcvNxt), s.rcvWnd, s.annWnd, Wrap(s.annEdge), Images(s.ooseq), s.state, s.maxWnd, s.mss)
  }

  function ShownOut(o: R.Outcome): Out { Out(Shown(o.rx), o.data, o.gotFin) }

  function EventImage(e: Runs.Event): Event {
    match e
    case Arrive(seg, ok, finAcked) => Arrive(Image(seg), ok, finAcked)
    case Recved(len) => Recved(len)
    case Announce => Announce
    case CreditFin => CreditFin
    case Purge(keep) => Purge(keep)
    case LocalClose(rst) => LocalClose(rst)
  }

  function EventImages(es: seq<Runs.Event>): (r: seq<Event>)
    ensures |r| == |es| && forall i :: 0 <= i < |es| ==> r[i] == EventImage(es[i])
  {
    seq(|es|, i requires 0 <= i < |es| => EventImage(es[i]))
  }

  // ---------------------------------------------------------------- inserting

  lemma {:induction false} DropCoveredExact(peer: R.Peer, g: R.Segment, q: seq<R.Segment>, low: int, base: int)
    requires (q != [] ==> InSpan(g, base)) && Close(q, base) && R.Queue(peer, q, low) && (g.fin ==> q == [])
    ensures var (a, r) := R.DropCovered(g, q);
            DropCovered32(Image(g), Images(q)) == (Image(a), Images(r)) && Close(r, base) && (r != [] ==> a == g)
    decreases |q|
  {
    hide Image, Images, Close, R.Queue, TcpSeg.ReachesEndOf, TcpSeg.Passes, TcpSeg.EdgeReachesEndOf, TcpSeg.EdgePasses;
    ImagesEmpty();
    if q != [] {
      HeadAndRest(peer, q, low, base);
      EndOrder(g, q[0], base);
      FinImage(g, q[0]);
      if g.End() >= q[0].End() {
        DropCoveredExact(peer, g.(fin := g.fin || q[0].fin), q[1..], q[0].End(), base);
      }
    }
  }

  /** Taking over a FIN. */
  lemma FinImage(g: R.Segment, h: R.Segment)
    ensures Image(g.(fin := g.fin || h.fin)) == if Image(h).fin then Image(g).(fin := true) else Image(g)
    ensures Image(g).fin == g.fin
  {
  }

  /** The list that tcp_oos_insert_segment() makes. */
  lemma SpliceExact(peer: R.Peer, g: R.Segment, q: seq<R.Segment>, base: int)
    requires peer.Sent(g) && g.TcpLen() > 0 && InSpan(g, base) && Close(q, base) && R.Queue(peer, q, g.seqno)
    requires q != [] && q[0].seqno == g.seqno ==> |g.data| > |q[0].data|
    ensures Splice32(Image(g), Images(q)) == Images(R.Splice(g, q))
  {
    hide Wrap, Low16, Image, Images, Close, R.Queue, TcpSeg.Shorten;
    hide TcpSeg.ReachesEndOf, TcpSeg.Passes, TcpSeg.EdgeReachesEndOf, TcpSeg.EdgePasses, DropCovered32, R.DropCovered;
    ImagesEmpty();
    FinImage(g, g);
    if g.fin {
      ImagesCons(g, []);
    } else {
      DropCoveredExact(peer, g, q, g.seqno, base);
      R.DropCoveredQueue(peer, g, q, 0);
      var (a, r) := R.DropCovered(g, q);
      if r != [] {
        HeadAndRest(peer, r, g.seqno, base);
        EndOrder(g, r[0], base);
        if g.End() > r[0].seqno {
          StartImage(r[0]);
          CutExact(g, r[0].seqno);
          ImagesCons(g.CutTo(r[0].seqno), r);
        }
      }
      ImagesCons(a, r);
    }
  }

  lemma StartImage(h: R.Segment)
    ensures Image(h).seqno == Wrap(h.seqno)
  {
  }

  lemma StartOrder(a: R.Segment, h: R.Segment, base: int)
    requires InSpan(a, base) && InSpan(h, base)
    ensures Image(a).seqno == Image(h).seqno <==> a.seqno == h.seqno
    ensures Lt(Image(a).seqno, Image(h).seqno) <==> a.seqno < h.seqno
    ensures Gt(Image(a).seqno, Image(h).seqno) <==> a.seqno > h.seqno
    ensures Image(a).len == |a.data| && Image(h).len == |h.data|
  {
    OrderExact(a.seqno, h.seqno);
  }

  lemma InsideExact(g: R.Segment, p: R.Segment, h: R.Segment, base: int)
    requires InSpan(g, base) && InSpan(p, base) && InSpan(h, base)
    ensures Inside(Image(g).seqno, Image(p), Image(h)) <==> p.seqno < g.seqno < h.seqno
  {
    AddWrap(p.seqno, 1);
    AddWrap(h.seqno, -1);
    OrderExact(g.seqno, p.seqno + 1);
    OrderExact(g.seqno, h.seqno - 1);
  }

  /** The end of the segment and the right edge of the window lie in the same run of 2^32
      sequence numbers. */
  predicate SameRun(g: R.Segment, edge: int) {
    g.Edge() / MODULUS == edge / MODULUS
  }

  /** The segment is appended to a non-empty queue: the one path with that comparison. */
  predicate Appends(q: seq<R.Segment>, g: R.Segment, ok: bool) {
    ok && q != [] && !q[|q| - 1].fin && q[|q| - 1].seqno < g.seqno
  }

  lemma TrimLength(rcvNxt: int, rcvWnd: u16, seqno: int)
    ensures Low16(Wrap(Wrap(rcvNxt) + rcvWnd - Wrap(seqno))) == Low16(rcvNxt + rcvWnd - seqno)
  {
    var k: int := Wrap(seqno);
    AddWrap(rcvNxt, rcvWnd - k);
    AddWrap(rcvNxt + rcvWnd, -k);
    assert rcvNxt + (rcvWnd - k) == rcvNxt + rcvWnd + -k;
    SubWrap(rcvNxt + rcvWnd, seqno);
  }

  /** The comparison and the 16-bit length are what unbounded positions give ... */
  lemma FitEdgeExact(g: R.Segment, rcvNxt: int, rcvWnd: u16)
    requires InSpan(g, rcvNxt) && rcvNxt <= g.seqno < rcvNxt + rcvWnd
    requires SameRun(g, rcvNxt + rcvWnd)
    ensures FitEdge32(Image(g), Wrap(rcvNxt), rcvWnd) == Image(R.FitEdge(g, rcvNxt + rcvWnd))
  {
    hide Wrap, Low16;
    EndExact(g);
    AddWrap(rcvNxt, rcvWnd);
    PlainOrderExact(g.Edge(), rcvNxt + rcvWnd);
    TrimLength(rcvNxt, rcvWnd, g.seqno);
    Low16Small(rcvNxt + rcvWnd - g.seqno);
    if g.Edge() > rcvNxt + rcvWnd { Low16Small(|R.FitEdge(g, rcvNxt + rcvWnd).data|); }
  }

  /** ... unless a multiple of 2^32 lies between the two. Then the code either lets a segment
      through that overruns the window, or gives a segment that fits a length its payload does
      not have. */
  lemma FitEdgeStraddle(g: R.Segment, rcvNxt: int, rcvWnd: u16)
    requires InSpan(g, rcvNxt) && rcvNxt <= g.seqno < rcvNxt + rcvWnd
    requires !SameRun(g, rcvNxt + rcvWnd)
    ensures var c := FitEdge32(Image(g), Wrap(rcvNxt), rcvWnd);
            if g.Edge() > rcvNxt + rcvWnd then c == Image(g)
            else c.len == rcvNxt + rcvWnd - g.seqno > |c.p|
  {
    hide Wrap, Low16;
    var edge := rcvNxt + rcvWnd;
    EndExact(g);
    AddWrap(rcvNxt, rcvWnd);
    PlainOrderExact(g.Edge(), edge);
    TrimLength(rcvNxt, rcvWnd, g.seqno);
    Low16Small(edge - g.seqno);
    assert g.Edge() != edge;
  }

  /** How far the walk over the queue has come: everything before index i starts below g. */
  ghost predicate Reached(peer: R.Peer, q: seq<R.Segment>, i: nat, low: int, base: int, g: R.Segment) {
    && i < |q| && R.Queue(peer, q[i..], low) && Close(q[i..], base)
    && (i > 0 ==> InSpan(q[i - 1], base) && q[i - 1].seqno < g.seqno && low == q[i - 1].End()
                  && !q[i - 1].fin && peer.Sent(q[i - 1]))
  }

  lemma ReachedHere(peer: R.Peer, q: seq<R.Segment>, i: nat, low: int, base: int, g: R.Segment)
    requires Reached(peer, q, i, low, base, g)
    ensures i < |q| && InSpan(q[i], base) && Close(q[i..], base)
    ensures i > 0 ==> InSpan(q[i - 1], base) && q[i - 1].seqno < g.seqno
    ensures g.seqno <= q[i].seqno ==> R.Queue(peer, q[i..], g.seqno)
    ensures g.seqno > q[i].seqno && i + 1 < |q| ==> Reached(peer, q, i + 1, q[i].End(), base, g)
  {
    HeadAndRest(peer, q[i..], low, base);
    assert q[i..][1..] == q[i + 1..];
  }

  ghost function Walk(q: seq<R.Segment>, g: R.Segment, ok: bool, edge: int, i: nat): seq<R.Segment>
    requires i < |q|
  {
    if i == 0 then R.Insert(q, g, ok, edge) else q[..i - 1] + R.InsertAfter(q[i - 1], q[i..], g, ok, edge)
  }

  /** The outcome of the walk at index i, by how g compares with the segment there. */
  lemma WalkStep(q: seq<R.Segment>, g: R.Segment, ok: bool, edge: int, i: nat)
    requires i < |q| && (i > 0 ==> q[i - 1].seqno < g.seqno)
    ensures g.seqno == q[i].seqno ==>
      Walk(q, g, ok, edge, i) == if |g.data| > |q[i].data| && ok then q[..i] + R.Splice(g, q[i..]) else q
    ensures g.seqno < q[i].seqno && !ok ==> Walk(q, g, ok, edge, i) == q
    ensures g.seqno < q[i].seqno && ok ==>
      Walk(q, g, ok, edge, i) == (if i > 0 then q[..i - 1] + [q[i - 1].CutTo(g.seqno)] else []) + R.Splice(g, q[i..])
    ensures g.seqno > q[i].seqno && i == |q| - 1 ==>
      Walk(q, g, ok, edge, i) == if q[i].fin || !ok then q else q[..i] + [q[i].CutTo(g.seqno), R.FitEdge(g, edge)]
    ensures g.seqno > q[i].seqno && i < |q| - 1 ==> Walk(q, g, ok, edge, i) == Walk(q, g, ok, edge, i + 1)
  {
    hide R.Splice, R.FitEdge, R.Segment.CutTo;
    var tail := q[i..];
    assert tail == [q[i]] + q[i + 1..] && q[..i] + tail == q && tail[1..] == q[i + 1..] && tail[0] == q[i];
    if i > 0 {
      hide R.Insert;
      var front := q[..i - 1];
      assert q[..i] == front + [q[i - 1]];
      Regroup(front, q[i - 1], tail);
      Regroup(front, q[i - 1], R.Splice(g, tail));
      Regroup(front, q[i - 1], R.InsertAfter(q[i], q[i + 1..], g, ok, edge));
      assert g.seqno > q[i].seqno ==> Walk(q, g, ok, edge, i) == q[..i] + R.InsertAfter(q[i], q[i + 1..], g, ok, edge);
    } else {
      assert q[0..] == q;
    }
  }

  lemma Regroup(front: seq<R.Segment>, p: R.Segment, t: seq<R.Segment>)
    ensures front + ([p] + t) == front + [p] + t
  {
  }

  lemma TrimTailExact(p: R.Segment, x: int, base: int)
    requires InSpan(p, base) && p.seqno <= x < base + 0x2_0000
    ensures Image(p).TrimTail(Wrap(x)) == Image(p.CutTo(x))
  {
    hide Wrap, Low16;
    EndExact(p);
    OrderExact(p.End(), x);
    if p.End() > x {
      SubWrap(x, p.seqno);
      Low16Small(x - p.seqno);
      Low16Small(|p.CutTo(x).data|);
    }
  }

  lemma ImagesAround(q: seq<R.Segment>, i: nat, mid: seq<R.Segment>, tail: seq<R.Segment>)
    requires i <= |q| && |mid| <= 1
    ensures mid == [] ==> Images(q[..i] + tail) == Images(q)[..i] + Images(tail)
    ensures mid != [] ==> Images(q[..i] + mid + tail) == Images(q)[..i] + [Image(mid[0])] + Images(tail)
  {
  }

  lemma ImagesPair(a: R.Segment, b: R.Segment)
    ensures Images([a, b]) == [Image(a), Image(b)]
  {
  }

  lemma ImagesSplit(q: seq<R.Segment>, i: nat)
    requires i <= |q|
    ensures Images(q)[..i] == Images(q[..i]) && Images(q)[i..] == Images(q[i..])
    ensures i < |q| ==> Images(q)[i] == Image(q[i])
  {
  }

  /** The walk from any place of the queue on. */
  lemma {:induction false} WalkExact(peer: R.Peer, s: R.Rx, g: R.Segment, ok: bool, i: nat, low: int)
    requires Reached(peer, s.ooseq, i, low, s.rcvNxt, g)
    requires peer.Sent(g) && g.TcpLen() > 0 && InSpan(g, s.rcvNxt) && s.rcvNxt < g.seqno < s.WindowEdge()
    requires Appends(s.ooseq, g, ok) ==> SameRun(g, s.WindowEdge())
    ensures Walk32(Images(s.ooseq), i, Image(g), ok, Wrap(s.rcvNxt), s.rcvWnd) == Images(Walk(s.ooseq, g, ok, s.WindowEdge(), i))
    decreases |s.ooseq| - i
  {
    hide Wrap, Low16, Image, Images, Close, R.Queue, R.Splice, Splice32, R.FitEdge, FitEdge32, Inside, Lt, Gt, TcpSeg.TrimTail;
    hide R.InsertAfter, R.Insert, Walk, Reached, SameRun;
    var q, edge := s.ooseq, s.WindowEdge();
    ReachedHere(peer, q, i, low, s.rcvNxt, g);
    ImagesSplit(q, i);
    StartOrder(g, q[i], s.rcvNxt);
    WalkStep(q, g, ok, edge, i);
    FinImage(q[i], q[i]);
    if i > 0 { InsideExact(g, q[i - 1], q[i], s.rcvNxt); }
    if g.seqno == q[i].seqno {
      if |g.data| > |q[i].data| && ok {
        SpliceExact(peer, g, q[i..], s.rcvNxt);
        ImagesAround(q, i, [], R.Splice(g, q[i..]));
      }
    } else if g.seqno < q[i].seqno {
      if ok { InsertHere(peer, q, i, g, s.rcvNxt); }
    } else if i == |q| - 1 {
      if !q[i].fin && ok {
        TrimTailExact(q[i], g.seqno, s.rcvNxt);
        StartImage(g);
        FitEdgeExact(g, s.rcvNxt, s.rcvWnd);
        ImagesAround(q, i, [], [q[i].CutTo(g.seqno), R.FitEdge(g, edge)]);
        ImagesPair(q[i].CutTo(g.seqno), R.FitEdge(g, edge));
      }
    } else {
      WalkExact(peer, s, g, ok, i + 1, q[i].End());
    }
  }

  /** The segment goes in front of place i. */
  lemma InsertHere(peer: R.Peer, q: seq<R.Segment>, i: nat, g: R.Segment, base: int)
    requires i < |q| && peer.Sent(g) && g.TcpLen() > 0 && InSpan(g, base) && g.seqno < q[i].seqno
    requires Close(q[i..], base) && R.Queue(peer, q[i..], g.seqno) && g.seqno < base + 0x2_0000
    requires i > 0 ==> InSpan(q[i - 1], base) && q[i - 1].seqno < g.seqno
    ensures i == 0 ==> Splice32(Image(g), Images(q)[0..]) == Images(R.Splice(g, q[0..]))
    ensures i > 0 ==> Images(q)[..i - 1] + [Images(q)[i - 1].TrimTail(Image(g).seqno)] + Splice32(Image(g), Images(q)[i..])
                      == Images(q[..i - 1] + [q[i - 1].CutTo(g.seqno)] + R.Splice(g, q[i..]))
  {
    hide Wrap, Low16, Image, Images, Close, R.Queue, R.Splice, Splice32, TcpSeg.TrimTail, R.Segment.CutTo;
    SpliceExact(peer, g, q[i..], base);
    ImagesSplit(q, i);
    if i > 0 {
      ImagesSplit(q, i - 1);
      StartImage(g);
      TrimTailExact(q[i - 1], g.seqno, base);
      ImagesAround(q, i - 1, [q[i - 1].CutTo(g.seqno)], R.Splice(g, q[i..]));
    }
  }

  /** Queueing a segment that is ahead of rcv_nxt. */
  lemma InsertExact(peer: R.Peer, s: R.Rx, g: R.Segment, ok: bool)
    requires peer.Sent(g) && g.TcpLen() > 0 && InSpan(g, s.rcvNxt) && s.rcvNxt < g.seqno < s.WindowEdge()
    requires Appends(s.ooseq, g, ok) ==> SameRun(g, s.WindowEdge())
    requires R.Queue(peer, s.ooseq, s.rcvNxt + 1) && Close(s.ooseq, s.rcvNxt)
    ensures Insert32(Images(s.ooseq), Image(g), ok, Wrap(s.rcvNxt), s.rcvWnd) == Images(R.Insert(s.ooseq, g, ok, s.WindowEdge()))
  {
    hide Wrap, Image, Images, Close, R.Queue, R.Splice, R.InsertAfter, Walk32;
    ImagesEmpty();
    ImagesCons(g, []);
    if s.ooseq != [] {
      assert s.ooseq[0..] == s.ooseq;
      WalkExact(peer, s, g, ok, 0, s.rcvNxt + 1);
    }
  }

  // ---------------------------------------------------------------- delivering

  lemma AnnWndExact(s: R.Rx)
    requires -0x4000_0000 <= s.annEdge - s.rcvNxt <= 0x4000_0000
    ensures var e := Wrap(Wrap(s.rcvNxt) + s.rcvWnd);
            && (Geq(e, Wrap(Wrap(s.annEdge) + Min(s.maxWnd / 2, s.mss))) <==> s.WindowEdge() >= s.annEdge + Min(s.maxWnd / 2, s.mss))
            && (s.WindowEdge() >= s.annEdge ==> Wrap(e - Wrap(s.annEdge)) == s.WindowEdge() - s.annEdge)
    ensures Gt(Wrap(s.rcvNxt), Wrap(s.annEdge)) <==> s.rcvNxt > s.annEdge
    ensures Low16(Wrap(Wrap(s.annEdge) - Wrap(s.rcvNxt))) == Low16(s.annEdge - s.rcvNxt)
  {
    hide Wrap, Low16, Geq, Gt;
    var m := Min(s.maxWnd / 2, s.mss);
    AddWrap(s.rcvNxt, s.rcvWnd);
    AddWrap(s.annEdge, m);
    OrderExact(s.WindowEdge(), s.annEdge + m);
    OrderExact(s.rcvNxt, s.annEdge);
    WrapSub(s.WindowEdge(), s.annEdge);
    if s.WindowEdge() >= s.annEdge { WrapSmall(s.WindowEdge() - s.annEdge); }
    SubWrap(s.annEdge, s.rcvNxt);
  }

  lemma UpdateExact(s: R.Rx)
    requires -0x4000_0000 <= s.annEdge - s.rcvNxt <= 0x4000_0000
    ensures UpdateAnnWnd32(Shown(s)) == Shown(R.UpdateAnnWnd(s))
    ensures Inflation32(Shown(s)) == if s.WindowEdge() >= s.annEdge + Min(s.maxWnd / 2, s.mss) then s.WindowEdge() - s.annEdge else 0
  {
    hide Wrap, Low16, Geq, Gt, Images;
    AnnWndExact(s);
  }

  lemma {:induction false} AbsorbExact(peer: R.Peer, g: R.Segment, q: seq<R.Segment>, low: int, base: int)
    requires (q != [] ==> InSpan(g, base)) && Close(q, base) && R.Queue(peer, q, low) && (g.fin ==> q == [])
    ensures var (a, r) := R.Absorb(g, q);
            Absorb32(Image(g), Images(q)) == (Image(a), Images(r)) && Close(r, base) && (r != [] ==> a == g)
    decreases |q|
  {
    hide Image, Images, Close, R.Queue, TcpSeg.ReachesEndOf, TcpSeg.Passes, TcpSeg.EdgeReachesEndOf, TcpSeg.EdgePasses;
    ImagesEmpty();
    if q != [] {
      HeadAndRest(peer, q, low, base);
      EndOrder(g, q[0], base);
      FinImage(g, q[0]);
      if g.Edge() >= q[0].End() {
        AbsorbExact(peer, g.(fin := g.fin || q[0].fin), q[1..], q[0].End(), base);
      }
    }
  }

  /** The cut that follows. */
  lemma TrimmedExact(peer: R.Peer, g: R.Segment, q: seq<R.Segment>, base: int)
    requires peer.Sent(g) && g.TcpLen() > 0 && InSpan(g, base) && g.seqno == base && !g.fin
    requires R.Queue(peer, q, base + 1) && Close(q, base)
    ensures var (a, r) := Trimmed(R.Absorb(g, q)); Trimmed32(Absorb32(Image(g), Images(q))) == (Image(a), Images(r))
  {
    hide Wrap, Low16, Image, Images, Close, R.Queue, TcpSeg.Shorten;
    hide TcpSeg.ReachesEndOf, TcpSeg.Passes, TcpSeg.EdgeReachesEndOf, TcpSeg.EdgePasses, Absorb32, R.Absorb;
    ImagesEmpty();
    AbsorbExact(peer, g, q, base + 1, base);
    R.AbsorbQueue(peer, g, q, 0);
    var (a, r) := R.Absorb(g, q);
    if r != [] {
      R.Head(peer, r, g.seqno + 1);
      HeadAndRest(peer, r, g.seqno + 1, base);
      EndOrder(g, r[0], base);
      if g.Edge() > r[0].seqno {
        StartImage(r[0]);
        StartImage(g);
        CutExact(g, r[0].seqno);
      }
    }
  }

  lemma {:induction false} DrainExact(s: R.Rx, data: seq<byte>, fin: bool, base: int)
    requires base <= s.rcvNxt <= base + 0x4_0000 && -0x2000_0000 <= s.annEdge - base <= 0x2000_0000
    requires Close(s.ooseq, base)
    ensures Drain32(Shown(s), data, fin) == ShownOut(R.Drain(s, data, fin))
    decreases |s.ooseq|
  {
    hide Wrap, Low16, Images, Close, R.UpdateAnnWnd, UpdateAnnWnd32;
    ImagesEmpty();
    if s.ooseq != [] {
      CloseRest(s.ooseq, base);
      OrderExact(s.ooseq[0].seqno, s.rcvNxt);
      if s.ooseq[0].seqno == s.rcvNxt {
        DrainStepExact(s, base);
        DrainNext(s, base);
        hide R.DrainStep, DrainStep32;
        DrainExact(R.DrainStep(s), data + s.ooseq[0].data, fin || s.ooseq[0].fin, base);
      }
    }
  }

  lemma DrainNext(s: R.Rx, base: int)
    requires s.ooseq != [] && s.ooseq[0].seqno == s.rcvNxt && InSpan(s.ooseq[0], base)
    ensures var r := R.DrainStep(s); base <= r.rcvNxt <= base + 0x4_0000 && r.annEdge == s.annEdge
    ensures Image(s.ooseq[0]).p == s.ooseq[0].data && Image(s.ooseq[0]).fin == s.ooseq[0].fin
    ensures Image(s.ooseq[0]).seqno == Wrap(s.rcvNxt)
  {
    hide R.UpdateAnnWnd, Low16;
  }

  lemma DrainStepExact(s: R.Rx, base: int)
    requires s.ooseq != [] && Close(s.ooseq, base) && s.ooseq[0].seqno == s.rcvNxt
    requires -0x2000_0000 <= s.annEdge - base <= 0x2000_0000
    ensures Images(s.ooseq) != [] && DrainStep32(Shown(s)) == Shown(R.DrainStep(s))
  {
    hide Wrap, Low16, Images, Close, R.UpdateAnnWnd, UpdateAnnWnd32;
    CloseRest(s.ooseq, base);
    var c := s.ooseq[0];
    EndExact(c);
    AddWrap(s.rcvNxt, c.TcpLen());
    LenImage(c);
    ImagesLen(s.ooseq);
    var t := s.(rcvNxt := s.rcvNxt + c.TcpLen(), rcvWnd := Low16(s.rcvWnd - c.TcpLen()));
    UpdateExact(t);
  }

  lemma LenImage(c: R.Segment)
    requires |c.data| < 0x1_0000
    ensures Image(c).TcpLen() == c.TcpLen() && Image(c).fin == c.fin && Image(c).p == c.data
  {
  }

  lemma ImagesLen(q: seq<R.Segment>)
    ensures |Images(q)| == |q|
  {
  }

  lemma InWindowExact(peer: R.Peer, s: R.Rx, g: R.Segment)
    requires peer.Sent(g) && g.TcpLen() > 0 && InSpan(g, s.rcvNxt) && s.rcvWnd > 0
    ensures var w := R.InWindow(s, g);
            && Image(w) == (if Image(g).TcpLen() > s.rcvWnd then Image(g).(fin := false).Shorten(s.rcvWnd) else Image(g))
            && peer.Sent(w) && w.TcpLen() > 0 && InSpan(w, s.rcvNxt) && w.seqno == g.seqno
  {
  }

  /** What an in-sequence segment leaves of itself and of the queue. */
  lemma FitInOrderExact(peer: R.Peer, s: R.Rx, g: R.Segment)
    requires peer.Sent(g) && g.TcpLen() > 0 && InSpan(g, s.rcvNxt) && g.seqno == s.rcvNxt && s.rcvWnd > 0
    requires R.Queue(peer, s.ooseq, s.rcvNxt + 1) && Close(s.ooseq, s.rcvNxt)
    ensures var (a, q) := R.FitInOrder(s, g);
            && FitInOrder32(Shown(s), Image(g)) == (Image(a), Images(q))
            && InSpan(a, s.rcvNxt) && Close(q, s.rcvNxt) && a.seqno == s.rcvNxt
  {
    hide Wrap, Low16, Image, Images, Close, R.Queue, R.Absorb, Absorb32, Trimmed32, R.InWindow, InWindow32, InSpan;
    var w := R.InWindow(s, g);
    ImagesEmpty();
    InWindowExact32(peer, s, g);
    FitClose(peer, s, g);
    FitStart(peer, s, g);
    FinImage(w, w);
    if s.ooseq != [] && !w.fin { TrimmedExact(peer, w, s.ooseq, s.rcvNxt); }
  }

  lemma FitStart(peer: R.Peer, s: R.Rx, g: R.Segment)
    requires g.seqno == s.rcvNxt
    ensures R.FitInOrder(s, g).0.seqno == s.rcvNxt
    ensures R.FitInOrder(s, g) ==
            var w := R.InWindow(s, g); if s.ooseq == [] || w.fin then (w, []) else Trimmed(R.Absorb(w, s.ooseq))
  {
  }

  lemma InWindowExact32(peer: R.Peer, s: R.Rx, g: R.Segment)
    requires peer.Sent(g) && g.TcpLen() > 0 && InSpan(g, s.rcvNxt) && s.rcvWnd > 0
    ensures var w := R.InWindow(s, g);
            && Image(w) == InWindow32(Shown(s), Image(g))
            && peer.Sent(w) && w.TcpLen() > 0 && InSpan(w, s.rcvNxt) && w.seqno == g.seqno
  {
    InWindowExact(peer, s, g);
    hide Images;
  }

  /** The in-sequence branch. */
  lemma InOrderExact(peer: R.Peer, s: R.Rx, g: R.Segment)
    requires peer.Sent(g) && g.TcpLen() > 0 && InSpan(g, s.rcvNxt) && g.seqno == s.rcvNxt && s.rcvWnd > 0
    requires R.Queue(peer, s.ooseq, s.rcvNxt + 1) && Close(s.ooseq, s.rcvNxt) && AnnNear(s)
    ensures InOrder32(Shown(s), Image(g)) == ShownOut(R.InOrder(s, g))
  {
    hide Wrap, Low16, Images, Close, R.Queue, R.Drain, Drain32, R.FitInOrder, FitInOrder32, R.UpdateAnnWnd, UpdateAnnWnd32;
    FitInOrderExact(peer, s, g);
    var (a, q) := R.FitInOrder(s, g);
    EndExact(a);
    LenImage(a);
    var t := s.(rcvNxt := s.rcvNxt + a.TcpLen(), rcvWnd := Low16(s.rcvWnd - a.TcpLen()), ooseq := q);
    UpdateExact(t);
    AdvanceIs(s, a.TcpLen(), q);
    DrainExact(R.UpdateAnnWnd(t), a.data, a.fin, s.rcvNxt);
  }

  lemma AdvanceIs(s: R.Rx, n: nat, q: seq<R.Segment>)
    ensures R.Advance(s, n).(ooseq := q) == R.UpdateAnnWnd(s.(rcvNxt := s.rcvNxt + n, rcvWnd := Low16(s.rcvWnd - n), ooseq := q))
  {
  }

  /** The cut that follows the absorption. */
  function Trimmed(r: (R.Segment, seq<R.Segment>)): (R.Segment, seq<R.Segment>) {
    (if r.1 != [] && r.0.Edge() > r.1[0].seqno then r.0.CutTo(r.1[0].seqno) else r.0, r.1)
  }

  lemma ImagesEmpty()
    ensures Images([]) == []
    ensures forall q :: Images(q) == [] <==> q == []
  {
  }

  lemma CloseRest(q: seq<R.Segment>, base: int)
    requires Close(q, base) && q != []
    ensures InSpan(q[0], base) && Close(q[1..], base)
    ensures Images(q)[0] == Image(q[0]) && Images(q)[1..] == Images(q[1..])
  {
  }

  lemma {:induction false} AbsorbClose(g: R.Segment, q: seq<R.Segment>, base: int)
    requires Close(q, base)
    ensures Close(R.Absorb(g, q).1, base)
    decreases |q|
  {
    if q != [] && g.Edge() >= q[0].End() {
      AbsorbClose(g.(fin := g.fin || q[0].fin), q[1..], base);
    }
  }

  lemma FitClose(peer: R.Peer, s: R.Rx, g: R.Segment)
    requires InSpan(g, s.rcvNxt) && g.seqno == s.rcvNxt && Close(s.ooseq, s.rcvNxt)
    ensures var (a, q) := R.FitInOrder(s, g); InSpan(a, s.rcvNxt) && Close(q, s.rcvNxt)
  {
    var w := R.InWindow(s, g);
    AbsorbClose(w, s.ooseq, s.rcvNxt);
  }

  // ---------------------------------------------------------------- one event, and runs

  /** The 32-bit comparisons are meaningful: the segment is near rcv_nxt, and one that is appended to
      the queue lies in the same run of 2^32 numbers as the window's edge. */
  ghost predicate Tractable(s: R.Rx, g: R.Segment, ok: bool) {
    && |g.data| < 0xffff
    && -0x7000_0000 <= g.seqno - s.rcvNxt <= 0x7000_0000
    && (s.rcvNxt < g.seqno < s.WindowEdge() && Appends(s.ooseq, g, ok) ==> SameRun(g, s.WindowEdge()))
  }

  ghost predicate AnnNear(s: R.Rx) {
    -0x2000_0000 <= s.annEdge - s.rcvNxt <= 0x2000_0000
  }

  lemma ArrivalExact(s: R.Rx, g: R.Segment, ok: bool)
    requires Tractable(s, g, ok)
    ensures Image(g).TcpLen() == g.TcpLen()
    ensures g.TcpLen() > 0 ==>
      (Between(Wrap(s.rcvNxt), Wrap(Image(g).seqno + 1), Wrap(Image(g).seqno + g.TcpLen() - 1))
       <==> g.seqno + 1 <= s.rcvNxt <= g.Edge() - 1)
    ensures g.seqno + 1 <= s.rcvNxt <= g.Edge() - 1 ==>
      var off := Wrap(Wrap(s.rcvNxt) - Image(g).seqno);
      && off <= |g.data|
      && Image(R.TrimFront(s.rcvNxt, g)) == TcpSeg(Wrap(s.rcvNxt), Low16(Image(g).len - off), g.data[off..], g.fin)
    ensures var t := R.TrimFront(s.rcvNxt, g);
      && (Between(Image(t).seqno, Wrap(s.rcvNxt), Wrap(Wrap(s.rcvNxt) + s.rcvWnd - 1)) <==> s.rcvNxt <= t.seqno <= s.WindowEdge() - 1)
      && (Wrap(s.rcvNxt) == Image(t).seqno <==> s.rcvNxt == t.seqno)
      && (s.rcvNxt <= t.seqno < s.WindowEdge() ==> InSpan(t, s.rcvNxt))
  {
    hide Wrap, Low16;
    var t := R.TrimFront(s.rcvNxt, g);
    EndExact(g);
    AddWrap(g.seqno, 1);
    AddWrap(g.seqno, g.TcpLen() - 1);
    assert Image(g).seqno + g.TcpLen() - 1 == Wrap(g.seqno) + (g.TcpLen() - 1);
    OrderExact(s.rcvNxt, g.seqno + 1);
    OrderExact(s.rcvNxt, g.Edge() - 1);
    WrapSub(s.rcvNxt, g.seqno);
    if g.seqno + 1 <= s.rcvNxt <= g.Edge() - 1 {
      WrapSmall(s.rcvNxt - g.seqno);
      Low16Small(|g.data| - (s.rcvNxt - g.seqno));
    }
    AddWrap(s.rcvNxt, s.rcvWnd - 1);
    assert Wrap(s.rcvNxt) + s.rcvWnd - 1 == Wrap(s.rcvNxt) + (s.rcvWnd - 1);
    OrderExact(t.seqno, s.rcvNxt);
    OrderExact(t.seqno, s.WindowEdge() - 1);
  }

  lemma TrimFrontExact(s: R.Rx, g: R.Segment, ok: bool)
    requires Tractable(s, g, ok) && g.TcpLen() > 0
    ensures TrimFront32(Wrap(s.rcvNxt), Image(g)) == Image(R.TrimFront(s.rcvNxt, g))
  {
    hide Wrap, Low16, Between;
    ArrivalExact(s, g, ok);
    StartImage(g);
    if !(g.seqno + 1 <= s.rcvNxt <= g.Edge() - 1) { assert R.TrimFront(s.rcvNxt, g) == g; }
  }

  /** The data part of tcp_receive(). */
  lemma ReceiveExact(peer: R.Peer, s: R.Rx, g: R.Segment, ok: bool)
    requires Tractable(s, g, ok) && peer.Sent(g) && AnnNear(s)
    requires R.Queue(peer, s.ooseq, s.rcvNxt + 1) && Close(s.ooseq, s.rcvNxt)
    ensures Receive32(Shown(s), Image(g), ok) == ShownOut(R.Receive(s, g, ok))
  {
    hide Wrap, Low16, Image, Images, Close, R.Queue, R.InOrder, InOrder32, R.Insert, Insert32, Between, R.TrimFront, TrimFront32;
    ArrivalExact(s, g, ok);
    if g.TcpLen() > 0 && s.Open() {
      TrimFrontExact(s, g, ok);
      R.SentTrimFront(peer, s.rcvNxt, g);
      var t := R.TrimFront(s.rcvNxt, g);
      if s.rcvNxt <= t.seqno < s.WindowEdge() {
        TrimmedSame(s.rcvNxt, g);
        if t.seqno == s.rcvNxt { InOrderExact(peer, s, t); } else { InsertExact(peer, s, t, ok); }
      }
    }
  }

  lemma TrimmedSame(rcvNxt: int, g: R.Segment)
    ensures R.TrimFront(rcvNxt, g).seqno > rcvNxt ==> R.TrimFront(rcvNxt, g) == g
    ensures g.TcpLen() > 0 ==> R.TrimFront(rcvNxt, g).TcpLen() > 0
  {
  }

  /** One event on the 32-bit fields is that event on positions. */
  lemma StepExact(peer: R.Peer, s: R.Rx, e: Runs.Event)
    requires R.Queue(peer, s.ooseq, s.rcvNxt + 1) && Close(s.ooseq, s.rcvNxt) && AnnNear(s)
    requires e.Arrive? ==> Tractable(s, e.seg, e.ok) && peer.Sent(e.seg)
    ensures Step32(Shown(s), EventImage(e)) == ShownOut(Runs.Step(s, e))
  {
    hide Wrap, Low16, Images, Close, R.Queue, R.Receive, Receive32, R.UpdateAnnWnd, UpdateAnnWnd32;
    match e
    case Arrive(seg, ok, _) => ReceiveExact(peer, s, seg, ok);
    case Recved(len) => UpdateExact(s.(rcvWnd := Runs.GrownWnd(s, len)));
    case Announce => AddWrap(s.rcvNxt, s.annWnd);
    case Purge(keep) => TakeImages(s.ooseq, keep);
    case _ =>
  }

  lemma TakeImages(q: seq<R.Segment>, n: nat)
    ensures R.Take(Images(q), n) == Images(R.Take(q, n))
  {
  }

  /** What a run must keep to: see Tractable; and rcv_nxt does not run away from the announced edge. */
  ghost predicate TractableRun(s: R.Rx, es: seq<Runs.Event>) {
    forall i :: 0 <= i < |es| ==>
      var rx := Runs.Run(s, es[..i]).rx;
      && (es[i].Arrive? ==> Tractable(rx, es[i].seg, es[i].ok))
      && rx.rcvNxt - rx.annEdge <= 0x2000_0000
  }

  /** What a run has established before its i-th event. */
  lemma RunFacts(peer: R.Peer, s: R.Rx, es: seq<Runs.Event>, i: nat)
    requires s.rcvNxt == peer.start && s.ooseq == [] && Runs.Announced(s) && i < |es|
    requires Runs.FromPeer(peer, es) && TractableRun(s, es)
    ensures var rx := Runs.Run(s, es[..i]).rx;
            && R.Queue(peer, rx.ooseq, rx.rcvNxt + 1) && Close(rx.ooseq, rx.rcvNxt) && AnnNear(rx)
            && (es[i].Arrive? ==> Tractable(rx, es[i].seg, es[i].ok) && peer.Sent(es[i].seg))
  {
    hide Runs.Step, Runs.Run, Runs.FromPeer, TractableRun, Tractable, Close, Near, R.Queue;
    RunPrefix(peer, s, es, i);
    var before := es[..i];
    assert before[..0] == [];
    Runs.WindowNeverShrinks(s, before, 0);
    Runs.PrefixSafety(peer, s, before);
    RunNear(peer, s, before);
    var rx := Runs.Run(s, before).rx;
    NearClose(peer, rx.ooseq, rx.rcvNxt + 1, rx.rcvNxt);
  }

  lemma RunPrefix(peer: R.Peer, s: R.Rx, es: seq<Runs.Event>, i: nat)
    requires i < |es| && Runs.FromPeer(peer, es) && TractableRun(s, es)
    ensures Runs.FromPeer(peer, es[..i]) && TractableRun(s, es[..i])
    ensures var rx := Runs.Run(s, es[..i]).rx;
            && (es[i].Arrive? ==> Tractable(rx, es[i].seg, es[i].ok) && peer.Sent(es[i].seg))
            && rx.rcvNxt - rx.annEdge <= 0x2000_0000
    ensures var l := Runs.Run(s, es[..i]);
            var o := Runs.Step(l.rx, es[i]);
            Runs.Run(s, es[..i + 1]) == Runs.Log(o.rx, l.data + o.data, l.fins + if o.gotFin then 1 else 0)
  {
    hide Runs.Step, Tractable, R.Peer.Sent;
    assert es[..i + 1][..i] == es[..i] && es[..i + 1][i] == es[i];
    assert forall j :: 0 <= j < i ==> es[..i][..j] == es[..j];
  }

  // ---------------------------------------------------------------- where queued segments start

  /** Every queued segment is short and starts below x. */
  ghost predicate Near(q: seq<R.Segment>, x: int) {
    forall c :: c in q ==> c.seqno < x && |c.data| < 0xffff
  }

  lemma {:induction false} DropCoveredNear(g: R.Segment, q: seq<R.Segment>, x: int)
    requires Near(q, x)
    ensures Near(R.DropCovered(g, q).1, x)
    decreases |q|
  {
    if q != [] && g.End() >= q[0].End() { DropCoveredNear(g.(fin := g.fin || q[0].fin), q[1..], x); }
  }

  lemma SpliceNear(g: R.Segment, q: seq<R.Segment>, x: int)
    requires Near(q, x) && g.seqno < x && |g.data| < 0xffff
    ensures Near(R.Splice(g, q), x)
  {
    DropCoveredNear(g, q, x);
    hide R.DropCovered;
  }

  lemma {:induction false} InsertAfterNear(p: R.Segment, q: seq<R.Segment>, g: R.Segment, ok: bool, edge: int, x: int)
    requires Near([p] + q, x) && g.seqno < x && |g.data| < 0xffff
    ensures Near(R.InsertAfter(p, q, g, ok, edge), x)
    decreases |q|
  {
    hide R.Splice;
    assert p in [p] + q;
    assert forall c :: c in q ==> c in [p] + q;
    if q == [] {
    } else if g.seqno <= q[0].seqno {
      SpliceNear(g, q, x);
    } else {
      assert q == [q[0]] + q[1..];
      InsertAfterNear(q[0], q[1..], g, ok, edge, x);
    }
  }

  lemma InsertNear(q: seq<R.Segment>, g: R.Segment, ok: bool, edge: int, x: int)
    requires Near(q, x) && g.seqno < x && |g.data| < 0xffff
    ensures Near(R.Insert(q, g, ok, edge), x)
  {
    hide R.Splice, R.InsertAfter;
    if q != [] {
      SpliceNear(g, q, x);
      assert q == [q[0]] + q[1..];
      InsertAfterNear(q[0], q[1..], g, ok, edge, x);
    }
  }

  lemma {:induction false} AbsorbNear(g: R.Segment, q: seq<R.Segment>, x: int)
    requires Near(q, x)
    ensures Near(R.Absorb(g, q).1, x)
    decreases |q|
  {
    if q != [] && g.Edge() >= q[0].End() { AbsorbNear(g.(fin := g.fin || q[0].fin), q[1..], x); }
  }

  lemma {:induction false} DrainNear(s: R.Rx, data: seq<byte>, fin: bool, x: int)
    requires Near(s.ooseq, x)
    ensures Near(R.Drain(s, data, fin).rx.ooseq, x)
    decreases |s.ooseq|
  {
    hide R.DrainStep;
    if s.ooseq != [] && s.ooseq[0].seqno == s.rcvNxt {
      DrainNear(R.DrainStep(s), data + s.ooseq[0].data, fin || s.ooseq[0].fin, x);
    }
  }

  lemma InOrderNear(s: R.Rx, g: R.Segment, x: int)
    requires Near(s.ooseq, x)
    ensures Near(R.InOrder(s, g).rx.ooseq, x)
  {
    hide R.Absorb, R.Drain;
    var w := R.InWindow(s, g);
    AbsorbNear(w, s.ooseq, x);
    var (a, q) := R.FitInOrder(s, g);
    DrainNear(R.Advance(s, a.TcpLen()).(ooseq := q), a.data, a.fin, x);
  }

  /** One event queues nothing that starts 2^16 or more above rcv_nxt. */
  lemma StepNear(s: R.Rx, e: Runs.Event)
    requires Near(s.ooseq, s.rcvNxt + 0x1_0000) && (e.Arrive? ==> |e.seg.data| < 0xffff)
    ensures Near(Runs.Step(s, e).rx.ooseq, s.rcvNxt + 0x1_0000)
  {
    hide Near, R.InOrder, R.Insert;
    match e
    case Arrive(seg, ok, _) =>
      var g := R.TrimFront(s.rcvNxt, seg);
      InOrderNear(s, g, s.rcvNxt + 0x1_0000);
      if g.seqno < s.WindowEdge() { InsertNear(s.ooseq, g, ok, s.WindowEdge(), s.rcvNxt + 0x1_0000); }
    case Purge(keep) => TakeNear(s.ooseq, keep, s.rcvNxt + 0x1_0000);
    case _ =>
  }

  lemma TakeNear(q: seq<R.Segment>, n: int, x: int)
    requires Near(q, x)
    ensures Near(R.Take(q, n), x)
  {
  }

  lemma NearGrows(q: seq<R.Segment>, x: int, y: int)
    requires Near(q, x) && x <= y
    ensures Near(q, y)
  {
  }

  lemma {:induction false} RunNear(peer: R.Peer, s: R.Rx, es: seq<Runs.Event>)
    requires s.rcvNxt == peer.start && s.ooseq == [] && Runs.FromPeer(peer, es) && TractableRun(s, es)
    ensures var rx := Runs.Run(s, es).rx; Near(rx.ooseq, rx.rcvNxt + 0x1_0000)
    decreases |es|
  {
    hide Runs.Step, Runs.FromPeer, TractableRun, Near, R.Queue;
    NearEmpty(s.rcvNxt + 0x1_0000);
    if es != [] {
      var before, e := es[..|es| - 1], es[|es| - 1];
      RunPrefix(peer, s, es, |es| - 1);
      RunNear(peer, s, before);
      Runs.PrefixSafety(peer, s, before);
      var rx := Runs.Run(s, before).rx;
      StepNear(rx, e);
      Runs.StepSafe(peer, rx, e);
      NearGrows(Runs.Step(rx, e).rx.ooseq, rx.rcvNxt + 0x1_0000, Runs.Step(rx, e).rx.rcvNxt + 0x1_0000);
    }
  }

  lemma NearEmpty(x: int)
    ensures Near([], x)
  {
  }

  lemma {:induction false} NearClose(peer: R.Peer, q: seq<R.Segment>, low: int, base: int)
    requires R.Queue(peer, q, low) && Near(q, base + 0x1_0000) && base <= low
    ensures Close(q, base)
  {
    if q != [] {
      NearClose(peer, q[1..], q[0].End(), base);
      assert forall i :: 0 < i < |q| ==> q[i] == q[1..][i - 1];
    }
  }

  /** Any run on the 32-bit fields, with overruns or without, is the run on positions ... */
  lemma {:induction false} RunExact(peer: R.Peer, s: R.Rx, es: seq<Runs.Event>)
    requires s.rcvNxt == peer.start && s.ooseq == [] && Runs.Announced(s)
    requires Runs.FromPeer(peer, es) && TractableRun(s, es)
    ensures var l := Runs.Run(s, es); Run32(Shown(s), EventImages(es)) == Log(Shown(l.rx), l.data, l.fins)
    decreases |es|
  {
    hide Runs.Step, Step32, Shown, EventImage, Runs.FromPeer, TractableRun, R.Queue, Close, Tractable, AnnNear, Runs.Announced;
    if es != [] {
      var n := |es| - 1;
      RunFacts(peer, s, es, n);
      RunPrefix(peer, s, es, n);
      RunExact(peer, s, es[..n]);
      StepExact(peer, Runs.Run(s, es[..n]).rx, es[n]);
      assert EventImages(es)[..n] == EventImages(es[..n]) && es[..n + 1] == es;
    }
  }

  /** ... and so all that was handed to the application is a prefix of the peer's stream, and the whole
      of it once the FIN has been reported. */
  lemma PrefixSafety32(peer: R.Peer, s: R.Rx, es: seq<Runs.Event>)
    requires s.rcvNxt == peer.start && s.ooseq == [] && Runs.Announced(s)
    requires Runs.FromPeer(peer, es) && TractableRun(s, es)
    ensures var l := Run32(Shown(s), EventImages(es));
            l.data <= peer.stream && l.fins <= 1 && (l.fins == 1 ==> l.data == peer.stream)
  {
    hide Runs.Run, Run32, Shown, EventImages, Runs.FromPeer, TractableRun, Runs.Announced;
    RunExact(peer, s, es);
    Runs.PrefixSafety(peer, s, es);
  }
}
