/** The receive code of lwip/core/tcp_in.c with tcp_update_rcv_ann_wnd() of lwip/core/tcp.c, on
    the pcb's own 32- and 16-bit fields: methods with the loops of the program, the functions of those
    fields that they compute whatever the fields hold, and when these do what the functions of module
    Reassembly do to unbounded positions. */
module TcpIn {
  import opened Common
  import opened SeqNum
  import R = Reassembly
  import Runs = ReceiveRuns

  /** struct tcp_seg: `len` is the cached length of the payload `p`. */
  datatype TcpSeg = TcpSeg(seqno: u32, len: u16, p: seq<byte>, fin: bool) {
    /** TCP_TCPLEN */
    function TcpLen(): int { len + if fin then 1 else 0 }

    /** TCP_SEQ_GEQ(seqno + len, h->seqno + h->len) */
    predicate ReachesEndOf(h: TcpSeg) { Geq(Wrap(seqno + len), Wrap(h.seqno + h.len)) }

    /** TCP_SEQ_GT(seqno + len, h->seqno) */
    predicate Passes(h: TcpSeg) { Gt(Wrap(seqno + len), h.seqno) }

    /** Cut off what reaches beyond x. */
    function TrimTail(x: u32): TcpSeg {
      if Gt(Wrap(seqno + len), x) then Shorten(Low16(Wrap(x - seqno))) else this
    }

    /** The same with tcplen in place of len. */
    predicate EdgeReachesEndOf(h: TcpSeg) { Geq(Wrap(seqno + TcpLen()), Wrap(h.seqno + h.len)) }

    predicate EdgePasses(h: TcpSeg) { Gt(Wrap(seqno + TcpLen()), h.seqno) }

    /** Set `len`, then pbuf_realloc() the payload. */
    function Shorten(n: u16): TcpSeg { TcpSeg(seqno, n, R.Take(p, n), fin) }
  }

  // ---------------------------------------------------------------- on the 32-bit fields

  /** The receive side of struct tcp_pcb by its values. */
  datatype Rcv = Rcv(rcvNxt: u32, rcvWnd: u16, annWnd: u16, annEdge: u32, ooseq: seq<TcpSeg>,
                     state: R.State, maxWnd: u16, mss: u16)
  {
    predicate Open() { state.Established? || state.FinWait1? || state.FinWait2? }
  }

  /** What one segment hands to the application. */
  datatype Out = Out(pcb: Rcv, data: seq<byte>, gotFin: bool)

  predicate Inflates32(s: Rcv) {
    Geq(Wrap(s.rcvNxt + s.rcvWnd), Wrap(s.annEdge + Min(s.maxWnd / 2, s.mss)))
  }

  /** What tcp_update_rcv_ann_wnd() returns. */
  function Inflation32(s: Rcv): u32 {
    if Inflates32(s) then Wrap(Wrap(s.rcvNxt + s.rcvWnd) - s.annEdge) else 0
  }

  /** tcp_update_rcv_ann_wnd() */
  function UpdateAnnWnd32(s: Rcv): Rcv {
    if Inflates32(s) then s.(annWnd := s.rcvWnd)
    else if Gt(s.rcvNxt, s.annEdge) then s.(annWnd := 0)
    else s.(annWnd := Low16(Wrap(s.annEdge - s.rcvNxt)))
  }

  /** Updating does not change how far the window would reach. */
  lemma InflationSame(s: Rcv)
    ensures Inflation32(UpdateAnnWnd32(s)) == Inflation32(s)
  {
    hide Wrap, Low16, Geq, Gt;
  }

  /** The deletion loop of tcp_oos_insert_segment(). */
  function DropCovered32(g: TcpSeg, q: seq<TcpSeg>): (TcpSeg, seq<TcpSeg>)
    decreases |q|
  {
    if q != [] && g.ReachesEndOf(q[0]) then DropCovered32(if q[0].fin then g.(fin := true) else g, q[1..]) else (g, q)
  }

  /** tcp_oos_insert_segment() */
  function Splice32(g: TcpSeg, q: seq<TcpSeg>): seq<TcpSeg> {
    if g.fin then [g]
    else
      var (a, r) := DropCovered32(g, q);
      [if r != [] && a.Passes(r[0]) then a.Shorten(Low16(Wrap(r[0].seqno - a.seqno))) else a] + r
  }

  /** TCP_SEQ_BETWEEN(seqno, prev->seqno + 1, next->seqno - 1) */
  predicate Inside(seqno: u32, prev: TcpSeg, next: TcpSeg) {
    Between(seqno, Wrap(prev.seqno + 1), Wrap(next.seqno - 1))
  }

  /** The plain comparison (u32_t)tcplen + seqno > rcv_nxt + rcv_wnd and the trimming it guards. */
  function FitEdge32(c: TcpSeg, rcvNxt: u32, rcvWnd: u16): TcpSeg {
    if Wrap(c.seqno + c.TcpLen()) > Wrap(rcvNxt + rcvWnd) then
      c.(fin := false).Shorten(Low16(Wrap(rcvNxt + rcvWnd - c.seqno)))
    else c
  }

  /** The walk over ooseq, from its place i on. `ok` says whether tcp_seg_copy() finds memory. */
  function Walk32(q: seq<TcpSeg>, i: nat, g: TcpSeg, ok: bool, rcvNxt: u32, rcvWnd: u16): seq<TcpSeg>
    decreases |q| - i
  {
    if i >= |q| then q
    else if g.seqno == q[i].seqno then if g.len > q[i].len && ok then q[..i] + Splice32(g, q[i..]) else q
    else if i == 0 && Lt(g.seqno, q[0].seqno) then if ok then Splice32(g, q[0..]) else q
    else if i > 0 && Inside(g.seqno, q[i - 1], q[i]) then
      if ok then q[..i - 1] + [q[i - 1].TrimTail(g.seqno)] + Splice32(g, q[i..]) else q
    else if i == |q| - 1 && Gt(g.seqno, q[i].seqno) then
      if !q[i].fin && ok then q[..i] + [q[i].TrimTail(g.seqno), FitEdge32(g, rcvNxt, rcvWnd)] else q
    else Walk32(q, i + 1, g, ok, rcvNxt, rcvWnd)
  }

  /** Queue a segment that is ahead of rcv_nxt. */
  function Insert32(q: seq<TcpSeg>, g: TcpSeg, ok: bool, rcvNxt: u32, rcvWnd: u16): seq<TcpSeg> {
    if q == [] then if ok then [g] else [] else Walk32(q, 0, g, ok, rcvNxt, rcvWnd)
  }

  /** Remove every queued segment that an in-sequence one covers, taking over a FIN. */
  function Absorb32(g: TcpSeg, q: seq<TcpSeg>): (TcpSeg, seq<TcpSeg>)
    decreases |q|
  {
    if q != [] && g.EdgeReachesEndOf(q[0]) then Absorb32(if q[0].fin then g.(fin := true) else g, q[1..]) else (g, q)
  }

  /** ... and cut it where it runs into the rest. */
  function Trimmed32(r: (TcpSeg, seq<TcpSeg>)): (TcpSeg, seq<TcpSeg>) {
    (if r.1 != [] && r.0.EdgePasses(r.1[0]) then r.0.Shorten(Low16(Wrap(r.1[0].seqno - r.0.seqno))) else r.0, r.1)
  }

  function InWindow32(s: Rcv, g: TcpSeg): TcpSeg {
    if g.TcpLen() > s.rcvWnd then g.(fin := false).Shorten(s.rcvWnd) else g
  }

  function FitInOrder32(s: Rcv, g: TcpSeg): (TcpSeg, seq<TcpSeg>) {
    var w := InWindow32(s, g);
    if s.ooseq == [] || w.fin then (w, []) else Trimmed32(Absorb32(w, s.ooseq))
  }

  /** One turn of the drain loop. */
  function DrainStep32(s: Rcv): (r: Rcv)
    requires s.ooseq != []
    ensures r.ooseq == s.ooseq[1..]
  {
    var c := s.ooseq[0];
    var t := UpdateAnnWnd32(s.(rcvNxt := Wrap(s.rcvNxt + c.TcpLen()), rcvWnd := Low16(s.rcvWnd - c.TcpLen())));
    t.(state := if c.fin && s.state.Established? then R.CloseWait else s.state, ooseq := s.ooseq[1..])
  }

  function Drain32(s: Rcv, data: seq<byte>, gotFin: bool): Out
    decreases |s.ooseq|
  {
    if s.ooseq != [] && s.ooseq[0].seqno == s.rcvNxt then
      Drain32(DrainStep32(s), data + s.ooseq[0].p, gotFin || s.ooseq[0].fin)
    else Out(s, data, gotFin)
  }

  function Accept32(s: Rcv, a: TcpSeg, q: seq<TcpSeg>): Out {
    var t := s.(rcvNxt := Wrap(a.seqno + a.TcpLen()), rcvWnd := Low16(s.rcvWnd - a.TcpLen()), ooseq := q);
    Drain32(UpdateAnnWnd32(t), a.p, a.fin)
  }

  function InOrder32(s: Rcv, g: TcpSeg): Out {
    var (a, q) := FitInOrder32(s, g);
    Accept32(s, a, q)
  }

  /** Cut the bytes below rcv_nxt off when rcv_nxt falls inside the segment. */
  function TrimFront32(rcvNxt: u32, g: TcpSeg): TcpSeg {
    if Between(rcvNxt, Wrap(g.seqno + 1), Wrap(g.seqno + g.TcpLen() - 1)) then
      var off := Wrap(rcvNxt - g.seqno);
      TcpSeg(rcvNxt, Low16(g.len - off), Drop(g.p, off), g.fin)
    else g
  }

  function Drop<T>(s: seq<T>, n: nat): seq<T> { if n <= |s| then s[n..] else [] }

  /** The data part of tcp_receive(). */
  function Receive32(s: Rcv, seg: TcpSeg, ok: bool): Out {
    if seg.TcpLen() == 0 || !s.Open() then Out(s, [], false)
    else
      var g := TrimFront32(s.rcvNxt, seg);
      if !Between(g.seqno, s.rcvNxt, Wrap(s.rcvNxt + s.rcvWnd - 1)) then Out(s, [], false)
      else if s.rcvNxt == g.seqno then InOrder32(s, g)
      else Out(s.(ooseq := Insert32(s.ooseq, g, ok, s.rcvNxt, s.rcvWnd)), [], false)
  }

  /** tcp_recved() up to the decision to send an update. */
  function GrowWindow32(s: Rcv, len: u16): Rcv {
    var w := Low16(s.rcvWnd + len);
    UpdateAnnWnd32(s.(rcvWnd := if w > s.maxWnd then s.maxWnd else w))
  }

  /** The events of module ReceiveRuns, with the segments as they arrive. */
  datatype Event =
    | Arrive(seg: TcpSeg, ok: bool, finAcked: bool)
    | Recved(len: u16)
    | Announce
    | CreditFin
    | Purge(keep: nat)
    | LocalClose(rst: bool)

  function Step32(s: Rcv, e: Event): Out {
    match e
    case Arrive(seg, ok, finAcked) =>
      var o := Receive32(s, seg, ok);
      o.(pcb := o.pcb.(state := Runs.NextState(o.pcb.state, o.gotFin, finAcked)))
    case Recved(len) => Out(GrowWindow32(s, len), [], false)
    case Announce => Out(s.(annEdge := Wrap(s.rcvNxt + s.annWnd)), [], false)
    case CreditFin => Out(if s.rcvWnd != s.maxWnd then s.(rcvWnd := Low16(s.rcvWnd + 1)) else s, [], false)
    case Purge(keep) => Out(s.(ooseq := R.Take(s.ooseq, keep)), [], false)
    case LocalClose(rst) => Out(s.(state := Runs.ClosedState(s.state, rst)), [], false)
  }

  /** All that was handed over, and how often a FIN was reported. */
  datatype Log = Log(pcb: Rcv, data: seq<byte>, fins: nat)

  function Run32(s: Rcv, es: seq<Event>): Log {
    if es == [] then Log(s, [], 0)
    else
      var l := Run32(s, es[..|es| - 1]);
      var o := Step32(l.pcb, es[|es| - 1]);
      Log(o.pcb, l.data + o.data, l.fins + if o.gotFin then 1 else 0)
  }

  // ---------------------------------------------------------------- the program

  /** tcp_oos_insert_segment(): `next0` is the rest of the queue; the list that starts at the
      inserted segment is returned. */
  method OosInsertSegment(cseg0: TcpSeg, next0: seq<TcpSeg>) returns (list: seq<TcpSeg>)
    ensures list == Splice32(cseg0, next0)
  {
    hide TcpSeg.ReachesEndOf, TcpSeg.Passes, TcpSeg.Shorten, Low16, Wrap;
    var cseg, next := cseg0, next0;
    if cseg.fin {
      return [cseg];
    }
    while next != [] && cseg.ReachesEndOf(next[0])
      invariant DropCovered32(cseg, next) == DropCovered32(cseg0, next0)
      decreases |next|
    {
      if next[0].fin {
        cseg := cseg.(fin := true);
      }
      next := next[1..];
    }
    if next != [] && cseg.Passes(next[0]) {
      cseg := cseg.Shorten(Low16(Wrap(next[0].seqno - cseg.seqno)));
    }
    list := [cseg] + next;
  }

  /** The walk of tcp_receive() over ooseq. */
  method InsertOoseq(ooseq: seq<TcpSeg>, inseg: TcpSeg, ok: bool, rcvNxt: u32, rcvWnd: u16) returns (r: seq<TcpSeg>)
    ensures r == Insert32(ooseq, inseg, ok, rcvNxt, rcvWnd)
  {
    hide Splice32, FitEdge32, TcpSeg.TrimTail, Inside, Lt, Gt;
    r := ooseq;
    if |ooseq| == 0 {
      if ok {
        r := [inseg];
      }
      return;
    }
    var i := 0;
    while i < |ooseq|
      invariant 0 <= i <= |ooseq| && r == ooseq
      invariant Insert32(ooseq, inseg, ok, rcvNxt, rcvWnd) == Walk32(ooseq, i, inseg, ok, rcvNxt, rcvWnd)
    {
      if inseg.seqno == ooseq[i].seqno {
        if inseg.len > ooseq[i].len && ok {
          var list := OosInsertSegment(inseg, ooseq[i..]);
          r := ooseq[..i] + list;
        }
        return;
      }
      if i == 0 {
        if Lt(inseg.seqno, ooseq[0].seqno) {
          if ok {
            r := OosInsertSegment(inseg, ooseq[i..]);
          }
          return;
        }
      } else if Inside(inseg.seqno, ooseq[i - 1], ooseq[i]) {
        if ok {
          var list := OosInsertSegment(inseg, ooseq[i..]);
          r := ooseq[..i - 1] + [ooseq[i - 1].TrimTail(inseg.seqno)] + list;
        }
        return;
      }
      if i == |ooseq| - 1 && Gt(inseg.seqno, ooseq[i].seqno) {
        if !ooseq[i].fin && ok {
          r := ooseq[..i] + [ooseq[i].TrimTail(inseg.seqno), FitEdge32(inseg, rcvNxt, rcvWnd)];
        }
        return;
      }
      i := i + 1;
    }
  }

  /** The receive side of struct tcp_pcb. */
  class TcpPcb {
    var rcvNxt: u32
    var rcvWnd: u16
    var rcvAnnWnd: u16
    var rcvAnnRightEdge: u32
    var ooseq: seq<TcpSeg>
    var state: R.State
    const tcpWnd: u16
    const mss: u16

    ghost function View(): Rcv
      reads this
    {
      Rcv(rcvNxt, rcvWnd, rcvAnnWnd, rcvAnnRightEdge, ooseq, state, tcpWnd, mss)
    }

    /** A connection whose SYN exchange is over: the peer's first byte is at rcv_nxt. */
    constructor (start: u32, state: R.State, tcpWnd: u16, mss: u16)
      ensures View() == Rcv(start, tcpWnd, tcpWnd, start, [], state, tcpWnd, mss)
    {
      rcvNxt, rcvAnnRightEdge, rcvWnd, rcvAnnWnd := start, start, tcpWnd, tcpWnd;
      ooseq, this.state, this.tcpWnd, this.mss := [], state, tcpWnd, mss;
    }

    /** tcp_update_rcv_ann_wnd(), returning how much further the window would reach. */
    method UpdateRcvAnnWnd() returns (inflation: u32)
      modifies this`rcvAnnWnd
      ensures View() == UpdateAnnWnd32(old(View())) && inflation == Inflation32(old(View()))
    {
      var newRightEdge := Wrap(rcvNxt + rcvWnd);
      if Geq(newRightEdge, Wrap(rcvAnnRightEdge + Min(tcpWnd / 2, mss))) {
        rcvAnnWnd := rcvWnd;
        inflation := Wrap(newRightEdge - rcvAnnRightEdge);
      } else {
        if Gt(rcvNxt, rcvAnnRightEdge) {
          rcvAnnWnd := 0;
        } else {
          rcvAnnWnd := Low16(Wrap(rcvAnnRightEdge - rcvNxt));
        }
        inflation := 0;
      }
    }

    /** tcp_recved(); an update is sent at once when the window would reach at least
        TCP_WND_UPDATE_THRESHOLD further than announced. */
    method Recved(len: u16) returns (update: bool)
      modifies this`rcvWnd, this`rcvAnnWnd
      ensures View() == GrowWindow32(old(View()), len)
      ensures update <==> Inflation32(View()) >= tcpWnd / 4
    {
      hide Inflation32, UpdateAnnWnd32, Low16;
      rcvWnd := Low16(rcvWnd + len);
      if rcvWnd > tcpWnd {
        rcvWnd := tcpWnd;
      }
      InflationSame(View());
      var inflation := UpdateRcvAnnWnd();
      update := inflation >= tcpWnd / 4;
    }

    /** Sending any segment moves the announced right edge. */
    method SendAnnounce()
      modifies this`rcvAnnRightEdge
      ensures View() == Step32(old(View()), Announce).pcb
    {
      rcvAnnRightEdge := Wrap(rcvNxt + rcvAnnWnd);
    }

    /** Give back the sequence number of a FIN the application has been told of. */
    method GiveBackFin()
      modifies this`rcvWnd
      ensures View() == Step32(old(View()), CreditFin).pcb
    {
      if rcvWnd != tcpWnd {
        rcvWnd := Low16(rcvWnd + 1);
      }
    }

    /** Drop from ooseq what an in-sequence segment covers, taking over a FIN, and cut the segment
        where it runs into the rest. */
    method AbsorbCovered(inseg0: TcpSeg) returns (inseg: TcpSeg)
      modifies this`ooseq
      ensures (inseg, ooseq) == Trimmed32(Absorb32(inseg0, old(ooseq)))
    {
      hide TcpSeg.EdgeReachesEndOf, TcpSeg.EdgePasses, TcpSeg.Shorten, Low16, Wrap;
      inseg := inseg0;
      var next := ooseq;
      while next != [] && inseg.EdgeReachesEndOf(next[0])
        invariant Absorb32(inseg, next) == Absorb32(inseg0, ooseq)
        decreases |next|
      {
        if next[0].fin {
          inseg := inseg.(fin := true);
        }
        next := next[1..];
      }
      if next != [] && inseg.EdgePasses(next[0]) {
        inseg := inseg.Shorten(Low16(Wrap(next[0].seqno - inseg.seqno)));
      }
      ooseq := next;
    }

    /** Hand over the head of ooseq for as long as it is in sequence. */
    method DrainOoseq(recvData0: seq<byte>, gotFin0: bool) returns (recvData: seq<byte>, gotFin: bool)
      modifies this
      ensures Out(View(), recvData, gotFin) == Drain32(old(View()), recvData0, gotFin0)
    {
      hide UpdateAnnWnd32, Low16, Wrap;
      recvData, gotFin := recvData0, gotFin0;
      while ooseq != [] && ooseq[0].seqno == rcvNxt
        invariant Drain32(View(), recvData, gotFin) == Drain32(old(View()), recvData0, gotFin0)
        decreases |ooseq|
      {
        DrainHead();
        var cseg := ooseq[0];
        recvData := recvData + cseg.p;
        if cseg.fin {
          gotFin := true;
          if state == R.Established {
            state := R.CloseWait;
          }
        }
        ooseq := ooseq[1..];
      }
    }

    /** Move rcv_nxt and the window over the head of ooseq. */
    method DrainHead()
      requires ooseq != []
      modifies this`rcvNxt, this`rcvWnd, this`rcvAnnWnd
      ensures var n := ooseq[0].TcpLen();
              View() == UpdateAnnWnd32(old(View()).(rcvNxt := Wrap(old(rcvNxt) + n), rcvWnd := Low16(old(rcvWnd) - n)))
    {
      rcvNxt := Wrap(rcvNxt + ooseq[0].TcpLen());
      rcvWnd := Low16(rcvWnd - ooseq[0].TcpLen());
      var _ := UpdateRcvAnnWnd();
    }

    /** The in-sequence branch of tcp_receive(). */
    method ReceiveInOrder(inseg0: TcpSeg) returns (recvData: seq<byte>, gotFin: bool)
      modifies this
      ensures Out(View(), recvData, gotFin) == InOrder32(old(View()), inseg0)
    {
      hide UpdateAnnWnd32, Drain32, Absorb32, Trimmed32, Low16, Wrap;
      var inseg := inseg0;
      if inseg.TcpLen() > rcvWnd {
        inseg := inseg.(fin := false).Shorten(rcvWnd);
      }
      if ooseq != [] {
        if inseg.fin {
          ooseq := [];
        } else {
          inseg := AbsorbCovered(inseg);
        }
      }
      assert (inseg, ooseq) == FitInOrder32(old(View()), inseg0);
      rcvNxt := Wrap(inseg.seqno + inseg.TcpLen());
      rcvWnd := Low16(rcvWnd - inseg.TcpLen());
      var _ := UpdateRcvAnnWnd();
      recvData, gotFin := DrainOoseq(inseg.p, inseg.fin);
    }

    /** The data part of tcp_receive(). */
    method TcpReceive(inseg0: TcpSeg, ok: bool) returns (recvData: seq<byte>, gotFin: bool)
      modifies this
      ensures Out(View(), recvData, gotFin) == Receive32(old(View()), inseg0, ok)
    {
      hide InOrder32, Insert32, Between, Low16, Wrap;
      recvData, gotFin := [], false;
      var inseg := inseg0;
      var tcplen := inseg.TcpLen();
      if tcplen > 0 && (state.Established? || state.FinWait1? || state.FinWait2?) {
        if Between(rcvNxt, Wrap(inseg.seqno + 1), Wrap(inseg.seqno + tcplen - 1)) {
          var off := Wrap(rcvNxt - inseg.seqno);
          inseg := TcpSeg(rcvNxt, Low16(inseg.len - off), Drop(inseg.p, off), inseg.fin);
        }
        if Between(inseg.seqno, rcvNxt, Wrap(rcvNxt + rcvWnd - 1)) {
          if rcvNxt == inseg.seqno {
            recvData, gotFin := ReceiveInOrder(inseg);
          } else {
            ooseq := InsertOoseq(ooseq, inseg, ok, rcvNxt, rcvWnd);
          }
        }
      }
    }

    /** One event; for a segment, tcp_receive() and then the state change of tcp_process(). */
    method Handle(e: Event) returns (data: seq<byte>, gotFin: bool)
      modifies this
      ensures Out(View(), data, gotFin) == Step32(old(View()), e)
    {
      hide Receive32, GrowWindow32, Low16, Wrap, Runs.NextState;
      data, gotFin := [], false;
      match e
      case Arrive(seg, ok, finAcked) =>
        data, gotFin := TcpReceive(seg, ok);
        state := Runs.NextState(state, gotFin, finAcked);
      case Recved(len) => var _ := Recved(len);
      case Announce => SendAnnounce();
      case CreditFin => GiveBackFin();
      case Purge(keep) => ooseq := R.Take(ooseq, keep);
      case LocalClose(rst) => state := Runs.ClosedState(state, rst);
    }

    /** Any run of arrivals, reads and transmissions. */
    method Process(es: seq<Event>) returns (data: seq<byte>, fins: nat)
      modifies this
      ensures Log(View(), data, fins) == Run32(old(View()), es)
    {
      hide Step32;
      data, fins := [], 0;
      assert es[..0] == [];
      var i := 0;
      while i < |es|
        invariant i <= |es| && Log(View(), data, fins) == Run32(old(View()), es[..i])
      {
        var d, f := Handle(es[i]);
        data, fins := data + d, fins + if f then 1 else 0;
        assert es[..i + 1][..i] == es[..i];
        i := i + 1;
      }
      assert es[..|es|] == es;
    }
  }
}
