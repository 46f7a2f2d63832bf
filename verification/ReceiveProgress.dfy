/** What arrives is taken: which positions the receive path of tcp_receive() (lwip/core/tcp_in.c)
    holds, and how far it delivers. */
module ReceiveProgress {
  import opened Common
  import opened SeqNum
  import opened Reassembly
  import opened ReceiveRuns

  /** Delivered already, or queued. */
  ghost predicate Held(s: Rx, x: int) { x < s.rcvNxt || Covers(s.ooseq, x) }

  /** Position x comes with an arriving segment and is taken: at once when the segment reaches down
      to rcv_nxt, or into the queue. */
  ghost predicate Brings(s: Rx, seg: Segment, ok: bool, x: int) {
    && s.Open() && s.rcvNxt <= x && seg.Has(x)
    && if seg.seqno <= s.rcvNxt then x < s.WindowEdge()
       else && ok && seg.seqno < s.WindowEdge() && !Ditched(s.ooseq, seg)
            && (x < s.WindowEdge() || !Appended(s.ooseq, seg))
  }

  /** A segment that is put into the queue cuts the one it starts in. */
  ghost predicate Cuts(s: Rx, seg: Segment, ok: bool, x: int) {
    && s.Open() && ok && s.rcvNxt < seg.seqno < s.WindowEdge() && seg.TcpLen() > 0 && !Ditched(s.ooseq, seg)
    && seg.seqno <= x && Covers(s.ooseq, x) && !CoversFrom(s.ooseq, seg.seqno, x)
    && !Brings(s, seg, ok, x)
  }

  function Drop<T>(s: seq<T>, n: nat): seq<T> { if n < |s| then s[n..] else [] }

  /** Queued position x is lost again. */
  ghost predicate Loses(s: Rx, e: Event, x: int) {
    match e
    case Arrive(seg, ok, _) => Cuts(s, seg, ok, x)
    case Purge(keep) => Covers(Drop(s.ooseq, keep), x)
    case _ => false
  }

  lemma {:induction false} TakeCovers(peer: Peer, q: seq<Segment>, low: int, n: nat, x: int)
    requires Queue(peer, q, low)
    ensures Covers(Take(q, n), x) <==> Covers(q, x) && !Covers(Drop(q, n), x)
    ensures Covers(Drop(q, n), x) ==> low <= x
    decreases n
  {
    if q != [] && 0 < n <= |q| {
      TakeCovers(peer, q[1..], q[0].End(), n - 1, x);
      assert Take(q, n)[1..] == Take(q[1..], n - 1) && Drop(q, n) == Drop(q[1..], n - 1);
      if q[0].fin { assert q[1..] == []; }
    } else if q != [] && n == 0 {
      assert Drop(q, 0) == q;
      if Covers(q, x) { CoversAbove(peer, q, low, x); }
    }
  }

  /** Nothing is queued at rcv_nxt. */
  lemma NextMissing(peer: Peer, s: Rx)
    requires Queue(peer, s.ooseq, s.rcvNxt + 1)
    ensures !Held(s, s.rcvNxt)
  {
    if Covers(s.ooseq, s.rcvNxt) { CoversAbove(peer, s.ooseq, s.rcvNxt + 1, s.rcvNxt); }
  }

  /** An in-sequence segment: all of it up to the edge of the window is delivered, and with it all
      that the queue held behind. */
  lemma InOrderHeld(peer: Peer, s: Rx, g: Segment, x: int)
    requires peer.Sent(g) && g.TcpLen() > 0 && g.seqno == s.rcvNxt && s.rcvWnd > 0
    requires Queue(peer, s.ooseq, s.rcvNxt + 1)
    ensures var r := InOrder(s, g).rx; Held(r, x) <==> Held(s, x) || (g.Has(x) && x < s.WindowEdge())
    ensures !Held(s, InOrder(s, g).rx.rcvNxt)
  {
    hide InOrder, Covers, Queue, Peer.Sent;
    InOrderCovers(peer, s, g, x);
    var r := InOrder(s, g).rx;
    InOrderCovers(peer, s, g, r.rcvNxt);
    assert InWindow(s, g).Has(x) <==> g.Has(x) && x < s.WindowEdge();
  }

  lemma DitchedHeld(peer: Peer, q: seq<Segment>, g: Segment, low: int, x: int)
    requires peer.Sent(g) && Queue(peer, q, low) && Ditched(q, g) && g.seqno <= x < g.End()
    ensures Covers(q, x)
  {
    if !q[0].Has(x) { DitchedHeld(peer, q[1..], g, q[0].End(), x); }
  }

  /** A segment above rcv_nxt that starts inside the window. */
  lemma QueuedHeld(peer: Peer, s: Rx, g: Segment, ok: bool, x: int)
    requires peer.Sent(g) && g.TcpLen() > 0 && s.rcvNxt < g.seqno < s.WindowEdge() && s.Open()
    requires Queue(peer, s.ooseq, s.rcvNxt + 1)
    ensures var r := s.(ooseq := Insert(s.ooseq, g, ok, s.WindowEdge()));
            && (Held(r, x) <==> (Held(s, x) && !Cuts(s, g, ok, x)) || Brings(s, g, ok, x))
            && !Held(r, r.rcvNxt)
  {
    hide Insert, Covers, CoversFrom, Queue, Peer.Sent, Ditched, Appended;
    InsertCovers(peer, s.ooseq, g, ok, s.WindowEdge(), s.rcvNxt + 1, x);
    InsertQueue(peer, s.ooseq, g, ok, s.WindowEdge(), s.rcvNxt + 1);
    NextMissing(peer, s.(ooseq := Insert(s.ooseq, g, ok, s.WindowEdge())));
    if CoversFrom(s.ooseq, g.seqno, x) { FromCovers(s.ooseq, g.seqno, x); }
  }

  /** One arriving segment, exactly. If the pcb can receive and the segment reaches over rcv_nxt,
      rcv_nxt moves to the first position that neither the segment inside the window nor the queue
      holds. If it starts above, inside the window, it is queued. Anything else changes nothing. */
  lemma ReceiveTakes(peer: Peer, s: Rx, seg: Segment, ok: bool, x: int)
    requires peer.Sent(seg) && Queue(peer, s.ooseq, s.rcvNxt + 1)
    ensures var r := Receive(s, seg, ok).rx;
            && (Held(r, x) <==> (Held(s, x) && !Cuts(s, seg, ok, x)) || Brings(s, seg, ok, x))
            && !Held(r, r.rcvNxt)
            && (s.Open() && seg.Has(s.rcvNxt) && s.rcvWnd > 0 ==>
                  && s.rcvNxt < r.rcvNxt
                  && (s.rcvNxt <= x < r.rcvNxt ==> (seg.Has(x) && x < s.WindowEdge()) || Covers(s.ooseq, x))
                  && (x == r.rcvNxt ==> !(seg.Has(x) && x < s.WindowEdge()) && !Covers(s.ooseq, x)))
            && (!s.Open() || seg.TcpLen() == 0 || seg.Edge() <= s.rcvNxt || seg.seqno >= s.WindowEdge() ==> r == s)
  {
    hide InOrder, Insert, Covers, CoversFrom, Queue, Peer.Sent, Ditched, Appended, TrimFront;
    NextMissing(peer, s);
    SentTrimFront(peer, s.rcvNxt, seg);
    var g := TrimFront(s.rcvNxt, seg);
    TrimHas(s.rcvNxt, seg, x);
    if seg.TcpLen() > 0 && s.Open() && s.rcvNxt <= g.seqno < s.WindowEdge() {
      if g.seqno == s.rcvNxt {
        TrimHas(s.rcvNxt, seg, Receive(s, seg, ok).rx.rcvNxt);
        InOrderTakes(peer, s, g, x);
      } else {
        QueuedHeld(peer, s, g, ok, x);
      }
    }
  }

  /** So what arrives inside the window is held afterwards, if there is memory for it; only a FIN
      whose data are queued without it is not. */
  lemma ArrivedHeld(peer: Peer, s: Rx, seg: Segment, ok: bool, x: int)
    requires peer.Sent(seg) && Queue(peer, s.ooseq, s.rcvNxt + 1)
    requires s.Open() && s.rcvNxt <= x < s.WindowEdge() && seg.Has(x)
    requires seg.seqno <= s.rcvNxt || (ok && (x < seg.End() || !Ditched(s.ooseq, seg)))
    ensures Held(Receive(s, seg, ok).rx, x)
  {
    hide Receive, Covers, CoversFrom, Queue, Peer.Sent, Ditched, Appended;
    ReceiveTakes(peer, s, seg, ok, x);
    if seg.seqno > s.rcvNxt && Ditched(s.ooseq, seg) { DitchedHeld(peer, s.ooseq, seg, s.rcvNxt + 1, x); }
  }

  lemma TrimHas(rcvNxt: int, g: Segment, x: int)
    ensures rcvNxt <= x ==> (TrimFront(rcvNxt, g).Has(x) <==> g.Has(x))
    ensures g.TcpLen() > 0 && g.seqno <= rcvNxt < g.Edge() ==> TrimFront(rcvNxt, g).seqno == rcvNxt
    ensures g.seqno > rcvNxt || g.Edge() <= rcvNxt ==> TrimFront(rcvNxt, g) == g
    ensures TrimFront(rcvNxt, g).Edge() == g.Edge()
  {
  }

  lemma {:induction false} FromCovers(q: seq<Segment>, from: int, x: int)
    requires CoversFrom(q, from, x)
    ensures Covers(q, x)
  {
    if !q[0].Has(x) || q[0].seqno < from { FromCovers(q[1..], from, x); }
  }

  lemma InOrderTakes(peer: Peer, s: Rx, g: Segment, x: int)
    requires peer.Sent(g) && g.TcpLen() > 0 && g.seqno == s.rcvNxt && s.rcvWnd > 0
    requires Queue(peer, s.ooseq, s.rcvNxt + 1)
    ensures var r := InOrder(s, g).rx;
            && s.rcvNxt < r.rcvNxt && !Held(r, r.rcvNxt)
            && (Held(r, x) <==> Held(s, x) || (g.Has(x) && x < s.WindowEdge()))
            && (s.rcvNxt <= x < r.rcvNxt ==> (g.Has(x) && x < s.WindowEdge()) || Covers(s.ooseq, x))
            && (x == r.rcvNxt ==> !(g.Has(x) && x < s.WindowEdge()) && !Covers(s.ooseq, x))
  {
    hide InOrder, Covers, Queue, Peer.Sent;
    InOrderCovers(peer, s, g, x);
    InOrderHeld(peer, s, g, x);
    var r := InOrder(s, g).rx;
    NextMissing(peer, r);
  }

  // ---------------------------------------------------------------- whole runs

  /** One event of any kind. */
  lemma StepHeld(peer: Peer, s: Rx, e: Event, x: int)
    requires e.Arrive? ==> peer.Sent(e.seg)
    requires Queue(peer, s.ooseq, s.rcvNxt + 1)
    ensures var r := Step(s, e).rx;
            && (Held(r, x) <==> (Held(s, x) && !Loses(s, e, x)) || (e.Arrive? && Brings(s, e.seg, e.ok, x)))
            && !Held(r, r.rcvNxt)
  {
    hide Receive, Covers, Queue, Peer.Sent, Cuts, Brings, UpdateAnnWnd;
    NextMissing(peer, s);
    match e
    case Arrive(seg, ok, _) => ReceiveTakes(peer, s, seg, ok, x);
    case Purge(keep) =>
      TakeCovers(peer, s.ooseq, s.rcvNxt + 1, keep, x);
      TakeCovers(peer, s.ooseq, s.rcvNxt + 1, keep, s.rcvNxt);
    case _ =>
  }

  /** Position x has come with an arriving segment of the run, and nothing since then has lost it. */
  ghost predicate Kept(s: Rx, es: seq<Event>, x: int) {
    es != [] &&
    var before, e := es[..|es| - 1], es[|es| - 1];
    var rx := Run(s, before).rx;
    || (e.Arrive? && Brings(rx, e.seg, e.ok, x))
    || (Kept(s, before, x) && !Loses(rx, e, x))
  }

  /** Over every run exactly the positions that have come and were not lost are held. */
  lemma {:induction false} RunHeld(peer: Peer, s: Rx, es: seq<Event>, x: int)
    requires s.rcvNxt == peer.start <= x && s.ooseq == [] && FromPeer(peer, es)
    ensures Held(Run(s, es).rx, x) <==> Kept(s, es, x)
    decreases |es|
  {
    if es != [] {
      hide Step, Loses, Brings, Covers;
      var before := es[..|es| - 1];
      RunHeld(peer, s, before, x);
      PrefixSafety(peer, s, before);
      StepHeld(peer, Run(s, before).rx, es[|es| - 1], x);
    }
  }

  /** A position is delivered as soon as it and everything below it has come and was not lost, and
      not before: rcv_nxt is the first position for which that is not so. */
  lemma FirstMissing(peer: Peer, s: Rx, es: seq<Event>, x: int)
    requires s.rcvNxt == peer.start <= x && s.ooseq == [] && FromPeer(peer, es)
    ensures var l := Run(s, es);
            && (x < l.rx.rcvNxt <==> forall y :: peer.start <= y <= x ==> Kept(s, es, y))
            && (x < l.rx.rcvNxt && x < peer.End() ==> |l.data| > x - peer.start && l.data[x - peer.start] == peer.stream[x - peer.start])
  {
    hide Run, Kept, Held;
    var l := Run(s, es);
    PrefixSafety(peer, s, es);
    RunHeld(peer, s, es, l.rx.rcvNxt);
    NextMissing(peer, l.rx);
    if x < l.rx.rcvNxt {
      forall y | peer.start <= y <= x ensures Kept(s, es, y) {
        RunHeld(peer, s, es, y);
        Passed(l.rx, y);
      }
    }
  }

  lemma Passed(s: Rx, x: int)
    requires x < s.rcvNxt
    ensures Held(s, x)
  {
  }
}
