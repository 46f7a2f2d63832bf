/** Whole runs of the receive path: what the application sees, and how the advertised window
    moves (tcp_in.c with tcp_update_rcv_ann_wnd() and tcp_recved() of tcp.c). */
module ReceiveRuns {
  import opened Common
  import opened SeqNum
  import opened Reassembly

  /** Everything that touches the receive fields of an established connection. */
  datatype Event =
    | Arrive(seg: Segment, ok: bool, finAcked: bool) // tcp_process() in ESTABLISHED or later
    | Recved(len: u16)                               // the application calls tcp_recved()
    | Announce                                       // a segment is sent, advertising annWnd
    | CreditFin                                      // tcp_input() gives back the FIN's number
    | Purge(keep: nat)                               // queue limits or pool pressure drop a tail
    | LocalClose(rst: bool)                          // tcp_close() or tcp_shutdown() of the sending side

  /** The state tcp_process() moves to after tcp_receive(). */
  function NextState(st: State, gotFin: bool, finAcked: bool): State {
    match st
    case Established => if gotFin then CloseWait else st
    case FinWait1 => if gotFin then if finAcked then TimeWait else Closing else if finAcked then FinWait2 else st
    case FinWait2 => if gotFin then TimeWait else st
    case Closing => if finAcked then TimeWait else st
    case _ => st
  }

  /** The state tcp_close_shutdown() moves to; with unread data it sends a RST. */
  function ClosedState(st: State, rst: bool): State {
    match st
    case Established => if rst then TimeWait else FinWait1
    case CloseWait => LastAck
    case _ => st
  }

  /** rcv_wnd after tcp_recved() has given back `len` bytes. */
  function GrownWnd(s: Rx, len: u16): u16 {
    var w := Low16(s.rcvWnd + len);
    if w > s.maxWnd then s.maxWnd else w
  }

  /** tcp_recved() up to the decision to send an update. */
  function GrowWindow(s: Rx, len: u16): Rx {
    UpdateAnnWnd(s.(rcvWnd := GrownWnd(s, len)))
  }

  function Step(s: Rx, e: Event): Outcome {
    match e
    case Arrive(seg, ok, finAcked) =>
      var o := Receive(s, seg, ok);
      o.(rx := o.rx.(state := NextState(o.rx.state, o.gotFin, finAcked)))
    case Recved(len) => Outcome(GrowWindow(s, len), [], false)
    case Announce => Outcome(s.(annEdge := s.rcvNxt + s.annWnd), [], false)
    case CreditFin => Outcome(if s.rcvWnd != s.maxWnd then s.(rcvWnd := Low16(s.rcvWnd + 1)) else s, [], false)
    case Purge(keep) => Outcome(s.(ooseq := Take(s.ooseq, keep)), [], false)
    case LocalClose(rst) => Outcome(s.(state := ClosedState(s.state, rst)), [], false)
  }

  /** All that recv_data has handed over, and how often TF_GOT_FIN was raised. */
  datatype Log = Log(rx: Rx, data: seq<byte>, fins: nat)

  function Run(s: Rx, es: seq<Event>): Log {
    if es == [] then Log(s, [], 0)
    else
      var l := Run(s, es[..|es| - 1]);
      var o := Step(l.rx, es[|es| - 1]);
      Log(o.rx, l.data + o.data, l.fins + if o.gotFin then 1 else 0)
  }

  /** Every arriving segment carries the peer's bytes. */
  ghost predicate FromPeer(peer: Peer, es: seq<Event>) {
    forall i :: 0 <= i < |es| && es[i].Arrive? ==> peer.Sent(es[i].seg)
  }

  lemma {:induction false} TakeQueue(peer: Peer, q: seq<Segment>, low: int, n: nat)
    requires Queue(peer, q, low)
    ensures Queue(peer, Take(q, n), low)
  {
    if q != [] && 0 < n <= |q| {
      TakeQueue(peer, q[1..], q[0].End(), n - 1);
      assert Take(q, n)[1..] == Take(q[1..], n - 1);
    }
  }

  /** One arriving segment, whatever branch it takes. */
  lemma ReceiveSafe(peer: Peer, s: Rx, seg: Segment, ok: bool)
    requires peer.Sent(seg) && Queue(peer, s.ooseq, s.rcvNxt + 1)
    requires peer.start <= s.rcvNxt <= peer.End() + 1
    ensures var o := Receive(s, seg, ok);
            && s.rcvNxt <= o.rx.rcvNxt <= peer.End() + 1
            && Queue(peer, o.rx.ooseq, o.rx.rcvNxt + 1)
            && o.data == Bytes(peer, s.rcvNxt, o.rx.rcvNxt)
            && (o.gotFin <==> s.rcvNxt <= peer.End() < o.rx.rcvNxt)
  {
    if seg.TcpLen() > 0 && s.Open() {
      SentTrimFront(peer, s.rcvNxt, seg);
      var g := TrimFront(s.rcvNxt, seg);
      if s.rcvNxt <= g.seqno <= s.WindowEdge() - 1 {
        assert g.TcpLen() > 0;
        if g.seqno == s.rcvNxt {
          InOrderCovers(peer, s, g, 0);
          InOrderData(peer, s, g);
        } else {
          InsertQueue(peer, s.ooseq, g, ok, s.WindowEdge(), s.rcvNxt + 1);
        }
      }
    }
  }

  lemma StepSafe(peer: Peer, s: Rx, e: Event)
    requires e.Arrive? ==> peer.Sent(e.seg)
    requires Queue(peer, s.ooseq, s.rcvNxt + 1)
    requires peer.start <= s.rcvNxt <= peer.End() + 1
    ensures var o := Step(s, e);
            && s.rcvNxt <= o.rx.rcvNxt <= peer.End() + 1
            && Queue(peer, o.rx.ooseq, o.rx.rcvNxt + 1)
            && o.data == Bytes(peer, s.rcvNxt, o.rx.rcvNxt)
            && (o.gotFin <==> s.rcvNxt <= peer.End() < o.rx.rcvNxt)
  {
    match e
    case Arrive(seg, ok, _) => ReceiveSafe(peer, s, seg, ok);
    case Purge(keep) => TakeQueue(peer, s.ooseq, s.rcvNxt + 1, keep);
    case _ =>
  }

  /** Over every run, whatever the order, overlap, duplication or loss of segments, the
      application has seen a prefix of the peer's stream, rcv_nxt counts exactly what it has seen,
      the FIN is reported once and only after all the data, and the queue stays well formed. */
  lemma {:induction false} PrefixSafety(peer: Peer, s: Rx, es: seq<Event>)
    requires s.rcvNxt == peer.start && s.ooseq == []
    requires FromPeer(peer, es)
    ensures var l := Run(s, es);
            && l.data <= peer.stream
            && l.fins <= 1 && (l.fins == 1 ==> l.data == peer.stream)
            && l.rx.rcvNxt == peer.start + |l.data| + l.fins
            && Queue(peer, l.rx.ooseq, l.rx.rcvNxt + 1)
    decreases |es|
  {
    if es != [] {
      var before := es[..|es| - 1];
      PrefixSafety(peer, s, before);
      var l := Run(s, before);
      var o := Step(l.rx, es[|es| - 1]);
      StepSafe(peer, l.rx, es[|es| - 1]);
      PrefixGrows(peer, l.data, l.fins, l.rx.rcvNxt, o.rx.rcvNxt);
    }
  }

  lemma PrefixGrows(peer: Peer, data: seq<byte>, fins: nat, a: int, b: int)
    requires data <= peer.stream && fins <= 1 && (fins == 1 ==> data == peer.stream)
    requires a == peer.start + |data| + fins && a <= b <= peer.End() + 1
    ensures var d := data + Bytes(peer, a, b);
            var f := fins + if a <= peer.End() < b then 1 else 0;
            d <= peer.stream && f <= 1 && (f == 1 ==> d == peer.stream) && b == peer.start + |d| + f
  {
    if fins == 0 {
      assert data == Bytes(peer, peer.start, a);
      BytesJoin(peer, peer.start, a, b);
    }
  }

  // ---------------------------------------------------------------- the advertised window

  /** The announced edge is not beyond what tcp_update_rcv_ann_wnd() last allowed. */
  predicate Announced(s: Rx) { s.annEdge <= s.rcvNxt + s.annWnd }

  /** tcp_update_rcv_ann_wnd() takes back no announced window, and its assertion
      new_rcv_ann_wnd <= 0xffff holds. */
  lemma AnnWndKept(s: Rx)
    requires s.annEdge - s.rcvNxt <= 0xffff
    ensures Announced(UpdateAnnWnd(s))
    ensures s.annEdge <= s.WindowEdge() ==> s.rcvNxt + UpdateAnnWnd(s).annWnd <= s.WindowEdge()
  {
  }

  lemma AdvanceEdge(s: Rx, n: nat)
    requires Announced(s)
    ensures Announced(Advance(s, n)) && Advance(s, n).annEdge == s.annEdge
  {
    AnnWndKept(s.(rcvNxt := s.rcvNxt + n, rcvWnd := Low16(s.rcvWnd - n)));
  }

  lemma {:induction false} DrainEdge(s: Rx, data: seq<byte>, fin: bool)
    requires Announced(s)
    ensures var r := Drain(s, data, fin).rx; Announced(r) && r.annEdge == s.annEdge
    decreases |s.ooseq|
  {
    hide Advance, Announced;
    if s.ooseq != [] && s.ooseq[0].seqno == s.rcvNxt {
      AdvanceEdge(s, s.ooseq[0].TcpLen());
      DrainStepEdge(s);
      DrainEdge(DrainStep(s), data + s.ooseq[0].data, fin || s.ooseq[0].fin);
    }
  }

  lemma DrainStepEdge(s: Rx)
    requires s.ooseq != []
    ensures var r := DrainStep(s);
            r.annEdge == Advance(s, s.ooseq[0].TcpLen()).annEdge
            && (Announced(r) <==> Announced(Advance(s, s.ooseq[0].TcpLen())))
  {
  }

  lemma InOrderEdge(s: Rx, g: Segment)
    requires Announced(s)
    ensures var r := InOrder(s, g).rx; Announced(r) && r.annEdge == s.annEdge
  {
    hide Advance, Drain;
    var (a, q) := FitInOrder(s, g);
    AdvanceEdge(s, a.TcpLen());
    DrainEdge(Advance(s, a.TcpLen()).(ooseq := q), a.data, a.fin);
  }

  /** Whatever happens, even an overrun, the announced edge does not move left. */
  lemma StepEdge(s: Rx, e: Event)
    requires Announced(s)
    ensures var r := Step(s, e).rx; Announced(r) && s.annEdge <= r.annEdge
  {
    match e
    case Arrive(seg, ok, _) => ReceiveEdge(s, seg, ok);
    case Recved(len) => AnnWndKept(s.(rcvWnd := GrownWnd(s, len)));
    case _ =>
  }

  lemma ReceiveEdge(s: Rx, seg: Segment, ok: bool)
    requires Announced(s)
    ensures var r := Receive(s, seg, ok).rx; Announced(r) && r.annEdge == s.annEdge
  {
    hide InOrder, Insert;
    InOrderEdge(s, TrimFront(s.rcvNxt, seg));
  }

  /** The advertised window never shrinks. Over every run, with or without overruns, the announced
      right edge never moves left, and it is never further from rcv_nxt than the 16 bits that
      tcp_update_rcv_ann_wnd() asserts. */
  lemma {:induction false} WindowNeverShrinks(s: Rx, es: seq<Event>, i: nat)
    requires Announced(s) && i <= |es|
    ensures var r := Run(s, es).rx;
            && Announced(r) && r.annEdge - r.rcvNxt <= 0xffff
            && Run(s, es[..i]).rx.annEdge <= r.annEdge
    decreases |es|
  {
    hide Step;
    if i == |es| { assert es[..i] == es; }
    if es != [] {
      var before := es[..|es| - 1];
      var j := if i < |es| then i else |before|;
      assert before[..j] == es[..j];
      WindowNeverShrinks(s, before, j);
      StepEdge(Run(s, before).rx, es[|es| - 1]);
    }
  }

  // ---------------------------------------------------------------- the receive window

  ghost predicate QueueBelow(q: seq<Segment>, edge: int) {
    forall i :: 0 <= i < |q| ==> q[i].Edge() <= edge
  }

  /** The window fields agree, and everything queued lies inside the window. */
  ghost predicate WindowOk(s: Rx) {
    && s.rcvWnd <= s.maxWnd
    && s.annEdge <= s.rcvNxt + s.annWnd <= s.WindowEdge()
    && QueueBelow(s.ooseq, s.WindowEdge())
  }

  /** A segment the queue stores although it ends beyond the window: the window is only checked
      when the segment is appended to a non-empty queue. */
  ghost predicate StoredBeyond(q: seq<Segment>, g: Segment, ok: bool, edge: int) {
    ok && !Ditched(q, g) && g.Edge() > edge && !Appended(q, g)
  }

  ghost predicate Overruns(s: Rx, seg: Segment, ok: bool) {
    var g := TrimFront(s.rcvNxt, seg);
    && seg.TcpLen() > 0 && s.Open()
    && s.rcvNxt < g.seqno < s.WindowEdge()
    && StoredBeyond(s.ooseq, g, ok, s.WindowEdge())
  }

  /** Advancing inside the window loses nothing to the 16-bit subtraction (the assertion
      rcv_wnd >= tcplen) and keeps the right edge. */
  lemma AdvanceWindow(s: Rx, n: nat)
    requires n <= s.rcvWnd && Announced(s) && s.annEdge <= s.WindowEdge()
    ensures var r := Advance(s, n);
            && r == s.(rcvNxt := s.rcvNxt + n, rcvWnd := s.rcvWnd - n, annWnd := r.annWnd)
            && r.WindowEdge() == s.WindowEdge()
            && r.annEdge <= r.rcvNxt + r.annWnd <= r.WindowEdge()
  {
    AnnWndKept(s.(rcvNxt := s.rcvNxt + n, rcvWnd := Low16(s.rcvWnd - n)));
  }

  lemma {:induction false} DrainWindow(s: Rx, data: seq<byte>, fin: bool)
    requires QueueBelow(s.ooseq, s.WindowEdge())
    requires s.annEdge <= s.rcvNxt + s.annWnd <= s.WindowEdge()
    ensures var r := Drain(s, data, fin).rx;
            && r.WindowEdge() == s.WindowEdge() && r.rcvWnd <= s.rcvWnd
            && r.annEdge == s.annEdge && r.maxWnd == s.maxWnd
            && r.annEdge <= r.rcvNxt + r.annWnd <= r.WindowEdge()
            && QueueBelow(r.ooseq, r.WindowEdge())
    decreases |s.ooseq|
  {
    hide Advance;
    if s.ooseq != [] && s.ooseq[0].seqno == s.rcvNxt {
      assert s.ooseq[0].Edge() <= s.WindowEdge();
      AdvanceWindow(s, s.ooseq[0].TcpLen());
      DrainWindow(DrainStep(s), data + s.ooseq[0].data, fin || s.ooseq[0].fin);
    }
  }

  lemma {:induction false} AbsorbWindow(peer: Peer, g: Segment, q: seq<Segment>, edge: int)
    requires peer.Sent(g) && Queue(peer, q, g.seqno + 1)
    requires g.Edge() <= edge && QueueBelow(q, edge) && (g.fin ==> q == [])
    ensures Absorb(g, q).0.Edge() <= edge && QueueBelow(Absorb(g, q).1, edge)
    decreases |q|
  {
    if q != [] && g.Edge() >= q[0].End() {
      if q[0].fin { assert q[1..] == []; }
      QueueLow(peer, q[1..], q[0].End(), g.seqno + 1);
      AbsorbWindow(peer, g.(fin := g.fin || q[0].fin), q[1..], edge);
    }
  }

  lemma {:induction false} DropCoveredWindow(peer: Peer, g: Segment, q: seq<Segment>, edge: int)
    requires peer.Sent(g) && Queue(peer, q, g.seqno)
    requires QueueBelow(q, edge) && (g.fin ==> q == [])
    ensures var (a, r) := DropCovered(g, q);
            && QueueBelow(r, edge)
            && (g.Edge() <= edge ==> a.Edge() <= edge)
            && (g.Edge() > edge ==> r == [] && a.Edge() > edge)
    decreases |q|
  {
    if q != [] && g.End() >= q[0].End() {
      if q[0].fin { assert q[1..] == []; }
      QueueLow(peer, q[1..], q[0].End(), g.seqno);
      DropCoveredWindow(peer, g.(fin := g.fin || q[0].fin), q[1..], edge);
    }
  }

  lemma SpliceWindow(peer: Peer, g: Segment, q: seq<Segment>, edge: int)
    requires peer.Sent(g) && Queue(peer, q, g.seqno) && QueueBelow(q, edge)
    ensures QueueBelow(Splice(g, q), edge) <==> g.Edge() <= edge
  {
    if g.fin {
      assert Splice(g, q)[0] == g;
    } else {
      DropCoveredWindow(peer, g, q, edge);
      var r := Splice(g, q);
      assert forall i :: 1 <= i < |r| ==> r[i] == DropCovered(g, q).1[i - 1];
      assert g.Edge() > edge ==> r[0].Edge() > edge;
    }
  }

  lemma {:induction false} InsertAfterWindow(peer: Peer, p: Segment, q: seq<Segment>, g: Segment, ok: bool, edge: int, low: int)
    requires peer.Sent(g) && g.TcpLen() > 0 && Queue(peer, [p] + q, low) && p.seqno < g.seqno < edge
    requires QueueBelow([p] + q, edge)
    ensures QueueBelow(InsertAfter(p, q, g, ok, edge), edge) <==> !StoredBeyond([p] + q, g, ok, edge)
    decreases |q|
  {
    hide QueueBelow, Splice, Queue, Peer.Sent;
    assert ([p] + q)[1..] == q;
    Cons(peer, p, q, low, 0, 0);
    QueueTail([p] + q, edge);
    var r := InsertAfter(p, q, g, ok, edge);
    QueueTail(r, edge);
    if q == [] {
      QueueEmpty(edge);
      if !p.fin && ok {
        QueueTail(r[1..], edge);
        assert r[1..][1..] == [];
      } else {
        assert r == [p] + q;
      }
    } else if g.seqno <= q[0].seqno {
      assert Ditched([p] + q, g) == Ditched(q, g);
      QueueOrder(peer, q, p.End(), |q| - 1);
      QueueLow(peer, q, p.End(), g.seqno);
      SpliceWindow(peer, g, q, edge);
    } else {
      assert q == [q[0]] + q[1..];
      InsertAfterWindow(peer, q[0], q[1..], g, ok, edge, p.End());
      assert r[1..] == InsertAfter(q[0], q[1..], g, ok, edge);
    }
  }

  lemma QueueEmpty(edge: int)
    ensures QueueBelow([], edge)
  {
  }

  lemma QueueTail(q: seq<Segment>, edge: int)
    requires q != []
    ensures QueueBelow(q, edge) <==> q[0].Edge() <= edge && QueueBelow(q[1..], edge)
  {
    assert forall i :: 0 < i < |q| ==> q[i] == q[1..][i - 1];
  }

  /** An insertion leaves the queue inside the window exactly when it does not store a segment
      that ends beyond it on a path without the window check. */
  lemma InsertWindow(peer: Peer, q: seq<Segment>, g: Segment, ok: bool, edge: int, low: int)
    requires peer.Sent(g) && g.TcpLen() > 0 && Queue(peer, q, low) && low <= g.seqno < edge
    requires QueueBelow(q, edge)
    ensures QueueBelow(Insert(q, g, ok, edge), edge) <==> !StoredBeyond(q, g, ok, edge)
  {
    hide QueueBelow;
    if q == [] {
      QueueEmpty(edge);
      QueueTail([g], edge);
      assert [g][1..] == [];
    } else if g.seqno <= q[0].seqno {
      QueueOrder(peer, q, low, |q| - 1);
      QueueLow(peer, q, low, g.seqno);
      SpliceWindow(peer, g, q, edge);
    } else {
      assert q == [q[0]] + q[1..];
      InsertAfterWindow(peer, q[0], q[1..], g, ok, edge, low);
    }
  }

  /** One arriving segment keeps the window fields consistent, the right edge in place and the
      announced edge untouched, exactly when it does not overrun the window. */
  lemma ReceiveWindow(peer: Peer, s: Rx, seg: Segment, ok: bool)
    requires peer.Sent(seg) && Queue(peer, s.ooseq, s.rcvNxt + 1) && WindowOk(s)
    ensures WindowOk(Receive(s, seg, ok).rx) <==> !Overruns(s, seg, ok)
    ensures var r := Receive(s, seg, ok).rx;
            !Overruns(s, seg, ok) ==> r.WindowEdge() == s.WindowEdge() && r.annEdge == s.annEdge && r.maxWnd == s.maxWnd
  {
    if seg.TcpLen() > 0 && s.Open() {
      SentTrimFront(peer, s.rcvNxt, seg);
      var g := TrimFront(s.rcvNxt, seg);
      if s.rcvNxt <= g.seqno <= s.WindowEdge() - 1 {
        assert g.TcpLen() > 0;
        if g.seqno == s.rcvNxt {
          InOrderWindow(peer, s, g);
        } else {
          InsertWindow(peer, s.ooseq, g, ok, s.WindowEdge(), s.rcvNxt + 1);
        }
      }
    }
  }

  lemma InOrderWindow(peer: Peer, s: Rx, g: Segment)
    requires peer.Sent(g) && g.TcpLen() > 0 && g.seqno == s.rcvNxt && s.rcvWnd > 0
    requires Queue(peer, s.ooseq, s.rcvNxt + 1) && WindowOk(s)
    ensures var r := InOrder(s, g).rx;
            WindowOk(r) && r.WindowEdge() == s.WindowEdge() && r.annEdge == s.annEdge && r.maxWnd == s.maxWnd
  {
    hide Absorb, Queue, Peer.Sent, Accept, Fits;
    var w := InWindow(s, g);
    InWindowSent(peer, s, g);
    InWindowEdge(s, g);
    if s.ooseq != [] && !w.fin { AbsorbWindow(peer, w, s.ooseq, s.WindowEdge()); }
    var (a, q) := FitInOrder(s, g);
    CutEdge(Absorb(w, s.ooseq).0, if Absorb(w, s.ooseq).1 == [] then w.End() else Absorb(w, s.ooseq).1[0].seqno);
    AcceptWindow(s, a, q);
  }

  lemma InWindowEdge(s: Rx, g: Segment)
    requires g.seqno == s.rcvNxt
    ensures InWindow(s, g).Edge() <= s.WindowEdge()
  {
  }

  lemma CutEdge(a: Segment, x: int)
    ensures a.CutTo(x).Edge() <= a.Edge() && a.CutTo(x).seqno == a.seqno
  {
  }

  lemma AcceptWindow(s: Rx, a: Segment, q: seq<Segment>)
    requires WindowOk(s) && a.seqno == s.rcvNxt
    requires a.Edge() <= s.WindowEdge() && QueueBelow(q, s.WindowEdge())
    ensures var r := Accept(s, a, q).rx;
            WindowOk(r) && r.WindowEdge() == s.WindowEdge() && r.annEdge == s.annEdge && r.maxWnd == s.maxWnd
  {
    hide Advance, Drain;
    AdvanceWindow(s, a.TcpLen());
    DrainWindow(Advance(s, a.TcpLen()).(ooseq := q), a.data, a.fin);
  }

  /** In run `es` no segment overran the window when it arrived, and tcp_recved() was never given
      more than its assertion allows. */
  ghost predicate InsideWindow(s: Rx, es: seq<Event>) {
    forall i :: 0 <= i < |es| ==>
      var rx := Run(s, es[..i]).rx;
      match es[i]
      case Arrive(seg, ok, _) => !Overruns(rx, seg, ok)
      case Recved(len) => len <= 0xffff - rx.rcvWnd
      case _ => true
  }

  lemma StepWindow(peer: Peer, s: Rx, e: Event)
    requires e.Arrive? ==> peer.Sent(e.seg) && !Overruns(s, e.seg, e.ok)
    requires e.Recved? ==> e.len <= 0xffff - s.rcvWnd
    requires Queue(peer, s.ooseq, s.rcvNxt + 1) && WindowOk(s)
    ensures var r := Step(s, e).rx;
            WindowOk(r) && r.maxWnd == s.maxWnd && s.WindowEdge() <= r.WindowEdge()
  {
    hide Receive, Overruns, UpdateAnnWnd, Queue;
    match e
    case Arrive(seg, ok, _) => ReceiveWindow(peer, s, seg, ok);
    case Recved(len) => AnnWndKept(s.(rcvWnd := GrownWnd(s, len)));
    case _ =>
  }

  /** Over every run in which no segment overran the window, the window fields stay consistent: what
      was announced is inside the receive window, whose right edge never moves left either. */
  lemma {:induction false} AnnouncedInsideWindow(peer: Peer, s: Rx, es: seq<Event>, i: nat)
    requires s.rcvNxt == peer.start && s.ooseq == [] && WindowOk(s)
    requires FromPeer(peer, es) && InsideWindow(s, es) && i <= |es|
    ensures var r := Run(s, es).rx;
            && WindowOk(r) && r.annEdge <= r.WindowEdge()
            && Run(s, es[..i]).rx.WindowEdge() <= r.WindowEdge()
    decreases |es|
  {
    hide Step, Overruns, Queue, WindowOk, InsideWindow, FromPeer;
    if i == |es| { assert es[..i] == es; }
    InsideEdge(s);
    if es != [] {
      var before := es[..|es| - 1];
      var j := if i < |es| then i else |before|;
      assert before[..j] == es[..j];
      InsideOn(peer, s, es);
      AnnouncedInsideWindow(peer, s, before, j);
      PrefixSafety(peer, s, before);
      StepWindow(peer, Run(s, before).rx, es[|es| - 1]);
      InsideEdge(Run(s, es).rx);
    }
  }

  lemma InsideEdge(s: Rx)
    requires WindowOk(s)
    ensures s.annEdge <= s.WindowEdge()
  {
  }

  lemma InsideOn(peer: Peer, s: Rx, es: seq<Event>)
    requires es != [] && InsideWindow(s, es) && FromPeer(peer, es)
    ensures var before, e := es[..|es| - 1], es[|es| - 1];
            && InsideWindow(s, before) && FromPeer(peer, before)
            && (e.Arrive? ==> peer.Sent(e.seg) && !Overruns(Run(s, before).rx, e.seg, e.ok))
            && (e.Recved? ==> e.len <= 0xffff - Run(s, before).rx.rcvWnd)
  {
    hide Overruns, Run, Peer.Sent;
    var before := es[..|es| - 1];
    assert forall k :: 0 <= k < |before| ==> before[..k] == es[..k];
  }

  /** The limit of that theorem, but not of WindowNeverShrinks. rcv_nxt is 0 and the window 10; a
      segment [5, 20) arrives early and is stored whole; then [0, 5) arrives. The assertion
      rcv_wnd >= TCP_TCPLEN fails while the queue is drained, and rcv_wnd wraps. It is announced, and
      when the application reads one byte tcp_recved() sets rcv_wnd back to TCP_WND: what was
      announced is then far outside the window. */
  lemma OverrunWrapsWindow(fifteen: seq<byte>, five: seq<byte>)
    requires |fifteen| == 15 && |five| == 5
    ensures var s := Rx(0, 10, 10, 10, [], Established, 2920, 536);
            var es := [Arrive(Segment(5, fifteen, false), true, false), Arrive(Segment(0, five, false), true, false), Announce, Recved(1)];
            var wrapped, r := Run(s, es[..2]).rx, Run(s, es).rx;
            && WindowOk(s) && Run(s, es[..1]).rx.ooseq == [Segment(5, fifteen, false)]
            && wrapped.rcvNxt == 20 && wrapped.rcvWnd == 65526
            && r.annEdge == 65546 && r.WindowEdge() == 2940
  {
    var s := Rx(0, 10, 10, 10, [], Established, 2920, 536);
    var h, g := Segment(5, fifteen, false), Segment(0, five, false);
    var es := [Arrive(h, true, false), Arrive(g, true, false), Announce, Recved(1)];
    assert es[..0] == [] && es[..1][..0] == [] && es[..2][..1] == es[..1] && es[..3][..2] == es[..2] && es[..4] == es && es[..4][..3] == es[..3];
    var late := s.(ooseq := [h]);
    LateStored(s, h);
    assert Run(s, es[..0]).rx == s;
    assert Run(s, es[..1]).rx == late;
    EarlyDrained(late, h, g);
    assert Run(s, es[..2]).rx == Step(late, es[1]).rx;
    var wrapped := Run(s, es[..2]).rx;
    assert Run(s, es[..3]).rx == wrapped.(annEdge := 65546);
    hide Receive;
  }

  lemma LateStored(s: Rx, h: Segment)
    requires s == Rx(0, 10, 10, 10, [], Established, 2920, 536) && h.seqno == 5 && |h.data| == 15 && !h.fin
    ensures Step(s, Arrive(h, true, false)).rx == s.(ooseq := [h])
  {
    hide InOrder, Splice, InsertAfter;
    assert TrimFront(0, h) == h && Insert([], h, true, 10) == [h];
  }

  lemma EarlyDrained(late: Rx, h: Segment, g: Segment)
    requires late == Rx(0, 10, 10, 10, [h], Established, 2920, 536) && h.seqno == 5 && |h.data| == 15 && !h.fin
    requires g.seqno == 0 && |g.data| == 5 && !g.fin
    ensures var r := Step(late, Arrive(g, true, false)).rx;
            r == late.(rcvNxt := 20, rcvWnd := 65526, annWnd := 65526, ooseq := [])
  {
    assert TrimFront(0, g) == g && Absorb(g, [h]) == (g, [h]) && FitInOrder(late, g) == (g, [h]);
    var s1 := Advance(late, 5);
    assert Receive(late, g, true) == Drain(s1, g.data, false);
    assert s1.rcvWnd == 5 && s1.rcvNxt == 5 && s1.ooseq == [h];
    assert DrainStep(s1).rcvWnd == 65526 && DrainStep(s1).ooseq == [];
    assert Drain(s1, g.data, false).rx == DrainStep(s1);
  }
}
