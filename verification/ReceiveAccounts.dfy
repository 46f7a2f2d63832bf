/** What the receive window and the state of a connection say about its past: tcp_recved()
    (lwip/core/tcp.c) and the state changes of tcp_process() (lwip/core/tcp_in.c). */
module ReceiveAccounts {
  import opened Common
  import opened SeqNum
  import opened Reassembly
  import opened ReceiveRuns

  // ---------------------------------------------------------------- the window is given back

  /** How many bytes the application has read. */
  function Read(es: seq<Event>): nat {
    if es == [] then 0
    else Read(es[..|es| - 1]) + if es[|es| - 1].Recved? then es[|es| - 1].len else 0
  }

  function Credits(es: seq<Event>): nat {
    if es == [] then 0 else Credits(es[..|es| - 1]) + if es[|es| - 1].CreditFin? then 1 else 0
  }

  /** No segment overran the window, and nothing was given back that had not been received. */
  ghost predicate Honest(s: Rx, es: seq<Event>) {
    es != [] ==>
      var before, e := es[..|es| - 1], es[|es| - 1];
      var l := Run(s, before);
      && Honest(s, before)
      && match e
         case Arrive(seg, ok, _) => !Overruns(l.rx, seg, ok)
         case Recved(len) => Read(before) + len <= |l.data|
         case CreditFin => Credits(before) < l.fins
         case _ => true
  }

  /** tcp_recved() gives back what was read, up to TCP_WND; its assertion says that the sum fits. */
  lemma GrownWndExact(s: Rx, len: u16)
    requires len <= 0xffff - s.rcvWnd
    ensures GrowWindow(s, len).rcvWnd == Min(s.rcvWnd + len, s.maxWnd)
  {
  }

  /** One event moves the edge of the window by what it gives back. */
  lemma StepGives(peer: Peer, s: Rx, e: Event)
    requires e.Arrive? ==> peer.Sent(e.seg) && !Overruns(s, e.seg, e.ok)
    requires e.Recved? ==> s.rcvWnd + e.len <= s.maxWnd
    requires e.CreditFin? ==> s.rcvWnd < s.maxWnd
    requires Queue(peer, s.ooseq, s.rcvNxt + 1) && WindowOk(s)
    ensures var r := Step(s, e).rx;
            && WindowOk(r) && r.maxWnd == s.maxWnd
            && r.WindowEdge() == s.WindowEdge() + match e case Recved(len) => len case CreditFin => 1 case _ => 0
  {
    hide Receive, Overruns, UpdateAnnWnd, Queue, WindowOk;
    StepWindow(peer, s, e);
    match e
    case Arrive(seg, ok, _) => ReceiveWindow(peer, s, seg, ok);
    case Recved(len) => GrownWndExact(s, len);
    case _ =>
  }

  /** Over every run the window is TCP_WND less what is received and not given back: when all is read,
      it is as wide as it was, and its edge is that much further on. */
  lemma {:induction false} WindowConserved(peer: Peer, s: Rx, es: seq<Event>)
    requires s.rcvNxt == peer.start && s.ooseq == [] && WindowOk(s) && s.rcvWnd == s.maxWnd
    requires FromPeer(peer, es) && Honest(s, es)
    ensures var l := Run(s, es);
            && WindowOk(l.rx) && l.rx.maxWnd == s.maxWnd
            && Read(es) <= |l.data| && Credits(es) <= l.fins
            && l.rx.rcvWnd == s.maxWnd - (|l.data| - Read(es)) - (l.fins - Credits(es))
            && l.rx.WindowEdge() == s.WindowEdge() + Read(es) + Credits(es)
    decreases |es|
  {
    PrefixSafety(peer, s, es);
    if es != [] {
      hide Step, Overruns, WindowOk, Queue;
      var before := es[..|es| - 1];
      WindowConserved(peer, s, before);
      PrefixSafety(peer, s, before);
      StepGives(peer, Run(s, before).rx, es[|es| - 1]);
    }
  }

  // ---------------------------------------------------------------- and announced

  /** How much of the window may be held back from the peer. */
  function Granule(s: Rx): nat { Min(s.maxWnd / 2, s.mss) }

  /** tcp_update_rcv_ann_wnd() announces the whole window, if that moves the announced edge by at least
      the granule, and otherwise leaves that edge where it is, or at rcv_nxt. */
  lemma AnnouncedExact(s: Rx)
    requires s.annEdge - s.rcvNxt <= 0xffff
    ensures var edge := s.rcvNxt + UpdateAnnWnd(s).annWnd;
            if s.WindowEdge() - s.annEdge >= Granule(s) then edge == s.WindowEdge()
            else edge == (if s.annEdge < s.rcvNxt then s.rcvNxt else s.annEdge) && s.WindowEdge() - edge < Granule(s)
  {
  }

  lemma {:induction false} SameGranule(s: Rx, es: seq<Event>)
    ensures Run(s, es).rx.maxWnd == s.maxWnd && Run(s, es).rx.mss == s.mss
    decreases |es|
  {
    if es != [] {
      hide Receive;
      SameGranule(s, es[..|es| - 1]);
      var t, e := Run(s, es[..|es| - 1]).rx, es[|es| - 1];
      if e.Arrive? { ReceiveFields(t, e.seg, e.ok); }
    }
  }

  lemma ReceiveFields(s: Rx, seg: Segment, ok: bool)
    ensures var r := Receive(s, seg, ok).rx; r.maxWnd == s.maxWnd && r.mss == s.mss
  {
    hide Drain, Insert;
    var g := TrimFront(s.rcvNxt, seg);
    var (a, q) := FitInOrder(s, g);
    DrainFields(Advance(s, a.TcpLen()).(ooseq := q), a.data, a.fin);
  }

  lemma {:induction false} DrainFields(s: Rx, data: seq<byte>, fin: bool)
    ensures var r := Drain(s, data, fin).rx; r.maxWnd == s.maxWnd && r.mss == s.mss
    decreases |s.ooseq|
  {
    if s.ooseq != [] && s.ooseq[0].seqno == s.rcvNxt {
      DrainFields(DrainStep(s), data + s.ooseq[0].data, fin || s.ooseq[0].fin);
    }
  }

  /** When the application has read all it was given, the next segment that is sent lets the peer send
      TCP_WND bytes again, less than the granule excepted: the window cannot stay closed. */
  lemma Reopens(peer: Peer, s: Rx, es: seq<Event>, len: u16)
    requires s.rcvNxt == peer.start && s.ooseq == [] && WindowOk(s) && s.rcvWnd == s.maxWnd
    requires FromPeer(peer, es) && Honest(s, es) && Honest(s, es + [Recved(len)])
    requires Run(s, es).fins == 0 && Read(es) + len == |Run(s, es).data|
    ensures var r := Run(s, es + [Recved(len), Announce]).rx;
            r.rcvWnd == s.maxWnd && r.annEdge > r.rcvNxt + s.maxWnd - Max(Granule(s), 1)
  {
    hide Step;
    var l, all := Run(s, es), es + [Recved(len)];
    assert all[..|es|] == es && (es + [Recved(len), Announce])[..|es| + 1] == all;
    WindowConserved(peer, s, es);
    WindowConserved(peer, s, all);
    SameGranule(s, es);
    var t := Run(s, all).rx;
    Regrown(l.rx, len);
    InsideEdge(l.rx);
    Sent(t);
  }

  lemma Sent(s: Rx)
    ensures Step(s, Announce).rx == s.(annEdge := s.rcvNxt + s.annWnd)
  {
  }

  lemma Regrown(s: Rx, len: u16)
    requires WindowOk(s)
    ensures var r := Step(s, Recved(len)).rx;
            && r.rcvNxt == s.rcvNxt && r.maxWnd == s.maxWnd && r.mss == s.mss
            && (r.rcvWnd == s.maxWnd ==> r.rcvNxt + r.annWnd > r.WindowEdge() - Max(Granule(s), 1))
  {
    AnnouncedExact(s.(rcvWnd := GrownWnd(s, len)));
  }

  function Max(a: int, b: int): int { if a < b then b else a }

  // ---------------------------------------------------------------- the state

  /** How the local side was closed: not yet, before the peer's FIN came, or after that; with a RST,
      because data were unread; and whether its FIN was acknowledged. */
  datatype Close = Not | First(rst: bool, acked: bool) | After

  /** ... after one more event, when the peer's FIN has come or not. */
  function Next(c: Close, e: Event, got: bool): Close {
    match e
    case LocalClose(rst) => if !c.Not? then c else if got then After else First(rst, false)
    case Arrive(_, _, finAcked) => if c.First? then c.(acked := c.acked || finAcked) else c
    case _ => c
  }

  function CloseOf(s: Rx, es: seq<Event>): Close {
    if es == [] then Not
    else Next(CloseOf(s, es[..|es| - 1]), es[|es| - 1], Run(s, es[..|es| - 1]).fins > 0)
  }

  /** The state by its meaning (RFC 793, section 3.2). */
  function Meaning(c: Close, got: bool): State {
    match c
    case Not => if got then CloseWait else Established
    case After => LastAck
    case First(rst, acked) =>
      if rst || (acked && got) then TimeWait
      else if acked then FinWait2
      else if got then Closing
      else FinWait1
  }

  lemma {:induction false} DrainState(s: Rx, data: seq<byte>, fin: bool)
    ensures var o := Drain(s, data, fin); o.rx.state == s.state || (s.state.Established? && o.rx.state.CloseWait? && o.gotFin)
    ensures fin ==> Drain(s, data, fin).gotFin
    decreases |s.ooseq|
  {
    hide Advance;
    if s.ooseq != [] && s.ooseq[0].seqno == s.rcvNxt {
      DrainState(DrainStep(s), data + s.ooseq[0].data, fin || s.ooseq[0].fin);
    }
  }

  /** Receiving changes the state only for a FIN. */
  lemma ReceiveState(s: Rx, seg: Segment, ok: bool)
    ensures var o := Receive(s, seg, ok);
            && (o.rx.state == s.state || (s.state.Established? && o.rx.state.CloseWait? && o.gotFin))
            && (o.gotFin ==> s.Open())
  {
    hide Drain, Advance, Insert;
    var g := TrimFront(s.rcvNxt, seg);
    var (a, q) := FitInOrder(s, g);
    AdvanceState(s, a.TcpLen());
    DrainState(Advance(s, a.TcpLen()).(ooseq := q), a.data, a.fin);
  }

  lemma AdvanceState(s: Rx, n: nat)
    ensures Advance(s, n).state == s.state
  {
  }

  lemma StepState(s: Rx, e: Event, c: Close, got: bool)
    requires s.state == Meaning(c, got) && (c.After? ==> got)
    ensures var o := Step(s, e); o.rx.state == Meaning(Next(c, e, got), got || o.gotFin)
    ensures Next(c, e, got).After? ==> got
  {
    hide Receive, UpdateAnnWnd;
    if e.Arrive? { ReceiveState(s, e.seg, e.ok); }
  }

  /** Over every run the state says exactly what has happened: whether and when the local side was
      closed, whether its FIN was acknowledged, and whether the peer's FIN has come. So TIME_WAIT is
      reached, other than by a RST, only when both FINs are through. */
  lemma {:induction false} StateExact(s: Rx, es: seq<Event>)
    requires s.state.Established?
    ensures var l := Run(s, es);
            && l.rx.state == Meaning(CloseOf(s, es), l.fins > 0)
            && (CloseOf(s, es).After? ==> l.fins > 0)
    decreases |es|
  {
    if es != [] {
      hide Step, Meaning, Next;
      var before := es[..|es| - 1];
      StateExact(s, before);
      var l := Run(s, before);
      StepState(l.rx, es[|es| - 1], CloseOf(s, before), l.fins > 0);
    }
  }
}
