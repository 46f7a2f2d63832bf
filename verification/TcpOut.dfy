/** The send code of lwip/core/tcp_out.c and the ACK processing of lwip/core/tcp_in.c on the pcb's
    own 32- and 16-bit fields. Every method is proved to do to the fields what the functions of
    module SendQueue do to unbounded positions. */
module TcpOut {
  import opened Common
  import opened SeqNum
  import opened SendQueue
  import L = SendLine
  import I = SendInvariant
  import Runs = SendRuns
  import M = SendMss

  datatype Err = OK | Mem | Conn

  function Image(g: Seg): Seg { g.(seqno := Wrap(g.seqno)) }

  function Images(q: seq<Seg>): (r: seq<Seg>)
    ensures |r| == |q| && forall i :: 0 <= i < |q| ==> r[i] == Image(q[i])
  {
    seq(|q|, i requires 0 <= i < |q| => Image(q[i]))
  }

  lemma ImagesConcat(a: seq<Seg>, b: seq<Seg>)
    ensures Images(a + b) == Images(a) + Images(b)
    ensures Images([]) == []
  {
  }

  lemma ImagesSplit(q: seq<Seg>, i: nat)
    requires i <= |q|
    ensures Images(q)[..i] == Images(q[..i]) && Images(q)[i..] == Images(q[i..])
  {
  }

  lemma ImagesOne(g: Seg)
    ensures Images([g]) == [Image(g)]
  {
  }

  lemma {:induction false} ChunksPbufs(data: seq<byte>, seqno: int, size: nat, opts: nat, pbufs: nat)
    requires size > 0
    ensures var q := Chunks(data, seqno, size, opts, pbufs); Pbufs(q) == pbufs * |q|
    decreases |data|
  {
    if data != [] {
      var n := Min(|data|, size);
      ChunksPbufs(data[n..], seqno + n, size, opts, pbufs);
      var q := Chunks(data, seqno, size, opts, pbufs);
      assert q[1..] == Chunks(data[n..], seqno + n, size, opts, pbufs);
    }
  }

  lemma WrittenPbufs(c: Conf, s: Tx, h: How, arg: seq<byte>)
    requires h.mss > c.optlen && c.align > 0
    ensures Pbufs(Extended(c, s, h, arg)) == Pbufs(s.unsent) + (if Concat(s, h, |arg|) > 0 then 1 else 0)
                                             + (if h.copy then |NewSegments(c, s, h, arg)| else 2 * |NewSegments(c, s, h, arg)|)
  {
    hide Chunks, Extended, Tail, NewSegments, Pbufs, Concat;
    var t := Tail(s, h, |arg|);
    var q := NewSegments(c, s, h, arg);
    I.WriteShape(c, s, h, arg);
    ChunksPbufs(arg[t..], s.lbb + t, h.mss - c.optlen, c.optlen, if h.copy then 1 else 2);
    if s.unsent == [] {
      NoTail(s, h, |arg|);
      PbufsNil();
    } else {
      var b := s.unsent[..|s.unsent| - 1];
      var l, l' := Last(s.unsent), I.Grown(s, h, arg);
      assert s.unsent == b + [l];
      L.PbufsConcat(b, [l]);
      L.PbufsConcat(b, [l'] + q);
      L.PbufsConcat([l'], q);
      I.PbufsOne(l);
      I.PbufsOne(l');
    }
  }

  lemma NoTail(s: Tx, h: How, len: nat)
    requires s.unsent == []
    ensures Concat(s, h, len) == 0 && Tail(s, h, len) == 0
  {
  }

  lemma PbufsNil()
    ensures Pbufs([]) == 0
  {
  }

  /** The send side of struct tcp_pcb. */
  class TcpPcb {
    var unsent: seq<Seg>
    var unacked: seq<Seg>
    var sndNxt: u32
    var sndLbb: u32
    var lastack: u32
    var sndBuf: u16
    var sndQueuelen: u16
    var unsentOversize: nat
    var writable: bool
    var mss: u16
    var sndWndMax: u16
    var nodelay: bool
    var nagleMemErr: bool
    const conf: Conf

    constructor (conf: Conf, iss: u32, mss: u16, sndWndMax: u16)
      ensures Shows(Runs.Fresh(conf, iss).tx) && this.conf == conf
    {
      this.conf, this.mss, this.sndWndMax := conf, mss, sndWndMax;
      unsent, unacked, sndNxt, sndLbb, lastack := [], [], iss, iss, iss;
      sndBuf, sndQueuelen, unsentOversize := conf.sndBuf, 0, 0;
      writable, nodelay, nagleMemErr := true, false, false;
    }

    /** The fields are the image of `s`. */
    ghost predicate Shows(s: Tx)
      reads this
    {
      && unsent == Images(s.unsent) && unacked == Images(s.unacked)
      && sndNxt == Wrap(s.sndNxt) && sndLbb == Wrap(s.lbb) && lastack == Wrap(s.lastack)
      && sndBuf == s.sndBuf && sndQueuelen == s.queueLen && unsentOversize == s.oversize
      && writable == s.writable
    }

    /** How tcp_write() would segment now. */
    function HowNow(copy: bool, more: bool): How
      reads this
    {
      How(copy, more, nodelay, Min(mss, sndWndMax / 2))
    }

    /** tcp_write(), when `memory` allocations succeed before one fails. It succeeds and appends `arg`
        exactly when the sending side is open and there is room in the buffer and in the queue and
        memory for each pbuf and each segment; otherwise nothing has changed but the flag
        TF_NAGLEMEMERR. */
    method TcpWrite(arg: seq<byte>, copy: bool, more: bool, memory: nat, ghost s: Tx) returns (err: Err)
      requires Shows(s) && conf.Ok() && (s.unsent == [] ==> s.oversize == 0)
      requires |arg| <= 0xffff && HowNow(copy, more).mss > conf.optlen
      modifies this`unsent, this`sndLbb, this`sndBuf, this`sndQueuelen, this`unsentOversize, this`nagleMemErr
      ensures err == OK ==> Shows(Written(conf, s, HowNow(copy, more), arg))
      ensures err != OK ==> Shows(s)
      ensures err == Conn <==> !s.writable
      ensures err == OK <==> s.writable && (arg == [] || (s.queueLen < conf.maxQueue && I.MayWrite(conf, s, HowNow(copy, more), arg)
                                                          && Needed(conf, s, HowNow(copy, more), arg) <= memory))
    {
      Room(conf, s, HowNow(copy, more), arg);
      hide Images, Wrap, Low16, Written, I.MayWrite, Needed, NewSegments;
      if !writable {
        return Conn;
      }
      if |arg| > 0 && (|arg| > sndBuf || sndQueuelen >= conf.maxQueue || sndQueuelen > 0xfffc) {
        nagleMemErr := true;
        return Mem;
      }
      var how := HowNow(copy, more);
      var ok, newUnsent, queuelen, oversize :=
        Prepare(conf, arg, how, unsent, unsent != [] || unacked != [], sndQueuelen, unsentOversize, sndLbb, memory, s);
      if !ok {
        nagleMemErr := true;
        return Mem;
      }
      Commit(how, arg, newUnsent, queuelen, oversize, s);
      return OK;
    }

    /** The end of tcp_write(): all changes to the pcb. */
    method Commit(how: How, arg: seq<byte>, newUnsent: seq<Seg>, queuelen: u16, oversize: nat, ghost s: Tx)
      requires Shows(s) && |arg| <= sndBuf && how.mss > conf.optlen && conf.align > 0
      requires CommitsTo(conf, s, how, arg, newUnsent, queuelen, oversize)
      modifies this`unsent, this`sndLbb, this`sndBuf, this`sndQueuelen, this`unsentOversize
      ensures Shows(Written(conf, s, how, arg))
    {
      hide Images, Wrap, Low16, Written;
      unsent := newUnsent;
      unsentOversize := oversize;
      sndLbb := Wrap(sndLbb + |arg|);
      sndBuf := sndBuf - |arg|;
      sndQueuelen := queuelen;
    }

    /** Close the sending direction: tcp_send_fin(), falling back on tcp_enqueue_flags() with
        TCP_FIN, and the state change of tcp_close() once that has succeeded. */
    method TcpClose(memory: nat, ghost s: Tx) returns (err: Err)
      requires Shows(s) && conf.Ok() && s.writable && s.extra == 0
      modifies this`unsent, this`sndLbb, this`sndBuf, this`sndQueuelen, this`unsentOversize, this`writable, this`nagleMemErr
      ensures err == OK ==> Shows(Closed(conf, s))
      ensures err != OK ==> Shows(s)
      ensures err == OK <==> I.MayClose(conf, s) && ((s.unsent != [] && !Last(s.unsent).fin) || memory >= 2)
    {
      hide Images, Wrap;
      if unsent != [] {
        LastImage(s.unsent);
        if !Last(unsent).fin {
          unsent := unsent[..|unsent| - 1] + [Last(unsent).(fin := true)];
          writable := false;
          return OK;
        }
      }
      err := EnqueueFin(memory, s);
    }

    /** tcp_enqueue_flags() with TCP_FIN: it takes a pbuf and a segment. */
    method EnqueueFin(memory: nat, ghost s: Tx) returns (err: Err)
      requires Shows(s) && conf.Ok()
      modifies this`unsent, this`sndLbb, this`sndBuf, this`sndQueuelen, this`unsentOversize, this`writable, this`nagleMemErr
      ensures err == OK ==> Shows(FinEnqueued(conf, s))
      ensures err != OK ==> Shows(s)
      ensures err == OK <==> s.queueLen < conf.maxQueue && s.sndBuf > 0 && memory >= 2
    {
      hide Images, Wrap;
      if sndQueuelen >= conf.maxQueue || sndQueuelen > 0xfffc {
        nagleMemErr := true;
        return Mem;
      }
      if sndBuf == 0 {
        return Mem;
      }
      if memory < 2 {
        nagleMemErr := true;
        return Mem;
      }
      ghost var f := Seg(s.lbb, [], true, conf.optlen, 1);
      ImagesConcat(s.unsent, [f]);
      ImagesOne(f);
      AddWrap(s.lbb, 1);
      unsent := unsent + [Seg(sndLbb, [], true, conf.optlen, 1)];
      unsentOversize := 0;
      sndLbb := Wrap(sndLbb + 1);
      sndBuf := sndBuf - 1;
      sndQueuelen := sndQueuelen + 1;
      writable := false;
      return OK;
    }

    /** tcp_output(); returns the segments put on the wire. */
    method TcpOutput(pace: Pace, ghost s: Tx, ghost base: int) returns (sent: seq<Seg>)
      requires Shows(s) && Spread(s, base)
      modifies this`unsent, this`unacked, this`sndNxt, this`unsentOversize, this`nagleMemErr
      ensures var (t, w) := Output(conf, s, pace); Shows(t) && sent == Images(w)
    {
      hide Images, Wrap, SendOne, Output, Spread, MaySend;
      sent := [];
      ghost var t, w: seq<Seg> := s, [];
      OutputStart(conf, s, pace);
      SendableExact(t, pace);
      while unsent != [] && Wrap(unsent[0].seqno - lastack + |unsent[0].data|) <= pace.wnd && NagleAllows(pace)
        invariant Shows(t) && Spread(t, base) && sent == Images(w)
        invariant Output(conf, s, pace) == (Output(conf, t, pace).0, w + Output(conf, t, pace).1)
        invariant unsent != [] && Wrap(unsent[0].seqno - lastack + |unsent[0].data|) <= pace.wnd && NagleAllows(pace)
                  <==> Sendable(conf, t, pace)
        decreases |unsent|
      {
        OutputGo(conf, s, t, w, pace);
        SpreadSend(t, base);
        ghost var g := t.unsent[0];
        ImagesConcat(w, [g]);
        ImagesOne(g);
        var seg := SendHead(t, base);
        sent := sent + [seg];
        t, w := SendOne(t), w + [g];
        SendableExact(t, pace);
      }
      OutputStop(conf, s, t, w, pace);
      if unsent == [] {
        ImagesConcat([], []);
        unsentOversize := 0;
      }
      nagleMemErr := false;
    }

    /** The guard of the loop of tcp_output() on the fields. */
    lemma SendableExact(s: Tx, pace: Pace)
      requires Shows(s)
      ensures unsent != [] && Wrap(unsent[0].seqno - lastack + |unsent[0].data|) <= pace.wnd && NagleAllows(pace)
              <==> Sendable(conf, s, pace)
      ensures unsent == [] <==> s.unsent == []
    {
      hide Wrap;
      if s.unsent != [] {
        WindowExact(s.unsent[0], s.lastack);
      }
    }

    /** The body of the loop of tcp_output(). */
    method SendHead(ghost s: Tx, ghost base: int) returns (seg: Seg)
      requires Shows(s) && Spread(s, base) && s.unsent != []
      modifies this`unsent, this`unacked, this`sndNxt
      ensures Shows(SendOne(s)) && seg == Image(s.unsent[0]) && |unsent| == |old(unsent)| - 1
    {
      hide Images, Wrap, PutUnacked;
      ghost var g := s.unsent[0];
      HeadImage(s.unsent);
      SpreadSend(s, base);
      seg := unsent[0];
      unsent := unsent[1..];
      var next := Wrap(seg.seqno + seg.TcpLen());
      AddWrap(g.seqno, g.TcpLen());
      OrderExact(s.sndNxt, g.End());
      if Lt(sndNxt, next) {
        sndNxt := next;
      }
      if seg.TcpLen() > 0 {
        unacked := PutSent(unacked, seg, s.unacked, g, base);
      }
    }

    /** tcp_do_output_nagle() or a flag that overrides it. */
    predicate NagleAllows(pace: Pace)
      requires unsent != []
      reads this
    {
      || pace.force || unacked == []
      || |unsent| > 1 || |unsent[0].data| >= pace.mss
      || sndBuf == 0 || sndQueuelen >= conf.maxQueue
    }

    /** tcp_rexmit() */
    method TcpRexmit(ghost s: Tx, ghost base: int)
      requires Shows(s) && Spread(s, base) && L.Sorted(s.unacked)
      requires forall g :: g in s.unsent && s.unacked != [] ==> g.seqno != s.unacked[0].seqno
      modifies this`unsent, this`unacked, this`unsentOversize
      ensures Shows(Rexmit(s))
    {
      hide Images, Wrap, L.Sorted;
      if unacked != [] {
        HeadImage(s.unacked);
        var seg := unacked[0];
        unacked := unacked[1..];
        var last;
        unsent, last := InsertInOrder(unsent, seg, s.unsent, s.unacked[0], base);
        if last {
          unsentOversize := 0;
        }
      }
    }

    /** tcp_rexmit_rto() */
    method TcpRexmitRto(pace: Pace, ghost s: Tx, ghost base: int) returns (sent: seq<Seg>)
      requires Shows(s) && Spread(s, base)
      modifies this`unsent, this`unacked, this`sndNxt, this`unsentOversize, this`nagleMemErr
      ensures s.unacked == [] ==> Shows(s) && sent == []
      ensures s.unacked != [] ==> var (t, w) := Output(conf, Requeued(s), pace); Shows(t) && sent == Images(w)
    {
      hide Images, Wrap, Output;
      if unacked == [] {
        return [];
      }
      ImagesConcat(s.unacked, s.unsent);
      unsent := unacked + unsent;
      unacked := [];
      sent := TcpOutput(pace, Requeued(s), base);
    }

    /** The ACK processing of tcp_receive(); `third` says that this is the third duplicate. Returns
        how many bytes the sent callback is told of. */
    method ReceiveAck(ackno32: u32, third: bool, ghost ackno: int, ghost s: Tx, ghost base: int) returns (acked: int)
      requires Shows(s) && Inv(conf, s) && Spread(s, base)
      requires ackno32 == Wrap(ackno) && base <= ackno <= base + 0x4000_0000 && base <= s.lastack
      modifies this`unsent, this`unacked, this`sndBuf, this`sndQueuelen, this`lastack, this`unsentOversize
      ensures Shows(AckReceived(s, ackno, third))
      ensures acked == if s.lastack < ackno <= s.sndNxt then
          Max(ackno - s.lastack - Fins(s.unacked[..Acked(s.unacked, ackno)]) - Fins(s.unsent[..Acked(s.unsent, ackno)]), 0)
        else 0
    {
      hide Images, Wrap, AckHead, AckTail, Fins, Acked, Spread, Inv, Clens;
      AckFacts(conf, s, ackno, third, base);
      ghost var r := AckHead(s, ackno, third);
      acked := AckFront(ackno32, third, ackno, s, base);
      ghost var a := acked;
      acked := PopUnsent(ackno32, acked, ackno, r, base);
      AckedCount(s, ackno, third, a);
      TailIs(r, ackno);
    }

    /** One event; false when a call fails, for lack of memory or because the sending side is closed.
        TF_NODELAY, mss and the largest window seen are what they are at the moment of a tcp_write(). */
    method Handle(e: Runs.Event, memory: nat, ghost l: Runs.Log, ghost m: u16) returns (ok: bool, sent: seq<Seg>)
      requires Shows(l.tx) && Inv(conf, l.tx) && M.Fits(l.tx, m) && Safe(conf, l.tx, e)
      modifies this
      ensures ok ==> Runs.Allowed(Runs.Tiling, conf, l.tx, e) && Runs.Allowed(Runs.Any, conf, l.tx, e)
      ensures ok ==> var r := Runs.Step(conf, l, e); Shows(r.tx) && Images(r.wire) == Images(l.wire) + sent
      ensures !ok ==> Shows(l.tx) && sent == [] && MayFail(e)
      ensures ok <==> Works(conf, l.tx, e, memory)
    {
      hide Shows, Images, Wrap, Written, Closed, Output, AckReceived, Spread, M.Fits, I.MayWrite, I.MayClose;
      ghost var base := l.tx.lastack - 0x1_0000;
      InvSpread(conf, l.tx, m);
      hide Inv;
      ok, sent := true, [];
      ImagesNil(l.wire);
      match e
      case Write(how, arg) => ok := HandleWrite(how, arg, memory, l);
      case Close => ok := HandleClose(memory, l);
      case Send(pace) =>
        sent := TcpOutput(pace, l.tx, base);
        ImagesConcat(l.wire, Output(conf, l.tx, pace).1);
      case AckIn(ackno, third) => var _ := ReceiveAck(Wrap(ackno), third, ackno, l.tx, base);
      case Timeout(pace) =>
        sent := TcpRexmitRto(pace, l.tx, base);
        ImagesConcat(l.wire, Output(conf, Requeued(l.tx), pace).1);
    }

    method HandleWrite(how: How, arg: seq<byte>, memory: nat, ghost l: Runs.Log) returns (ok: bool)
      requires Shows(l.tx) && Inv(conf, l.tx) && Safe(conf, l.tx, Runs.Write(how, arg))
      modifies this
      ensures ok ==> Runs.Allowed(Runs.Tiling, conf, l.tx, Runs.Write(how, arg))
      ensures ok ==> Shows(Written(conf, l.tx, how, arg))
      ensures !ok ==> Shows(l.tx)
      ensures ok <==> Works(conf, l.tx, Runs.Write(how, arg), memory)
    {
      hide Shows, Images, Wrap, Written, I.WriteSafe, Inv, I.MayWrite, Needed;
      InvFacts(conf, l.tx);
      Configure(how, l.tx);
      if arg == [] { MayWriteNothing(conf, l.tx, how); }
      var err := TcpWrite(arg, how.copy, how.more, memory, l.tx);
      ok := err == OK;
    }

    method Configure(how: How, ghost s: Tx)
      requires Shows(s) && how.mss <= 0x7fff
      modifies `nodelay, `mss, `sndWndMax
      ensures Shows(s) && HowNow(how.copy, how.more) == how
    {
      hide Images, Wrap;
      nodelay, mss, sndWndMax := how.nodelay, how.mss, 2 * how.mss;
    }

    /** A connection whose sending side is closed is left alone. */
    method HandleClose(memory: nat, ghost l: Runs.Log) returns (ok: bool)
      requires Shows(l.tx) && Inv(conf, l.tx) && Safe(conf, l.tx, Runs.Close)
      modifies this
      ensures ok ==> Runs.Allowed(Runs.Tiling, conf, l.tx, Runs.Close) && Shows(Closed(conf, l.tx))
      ensures !ok ==> Shows(l.tx)
      ensures ok <==> Works(conf, l.tx, Runs.Close, memory)
    {
      hide Images, Wrap, Closed, I.CloseSafe, I.MayClose;
      InvFacts(conf, l.tx);
      hide Inv;
      OnlyOpen(conf, l.tx);
      if !writable {
        return false;
      }
      var err := TcpClose(memory, l.tx);
      ok := err == OK;
    }

    /** Any run from a fresh connection on the 32-bit fields, in which memory[i] allocations of event i
        succeed: a call works exactly when it should, and the state and the segments sent are those of
        the run, on positions, of the events that worked, so the queues tile the sequence space and every
        segment sent carries the accepted bytes. */
    method Process(es: seq<Runs.Event>, memory: seq<nat>, ghost origin: int, ghost m: u16)
      returns (oks: seq<bool>, wire: seq<Seg>, ghost l: Runs.Log)
      requires conf.Ok() && Shows(Runs.Fresh(conf, origin).tx) && SafeRun(conf, origin, es)
      requires M.MssGrows(conf, es, m) && |memory| == |es|
      modifies this
      ensures |oks| == |es| && forall i :: 0 <= i < |es| ==> (!oks[i] ==> MayFail(es[i])) && Rightly(conf, origin, es, memory, oks, i)
      ensures Runs.Reachable(Runs.Tiling, conf, origin, Kept(es, oks), l)
      ensures Shows(l.tx) && wire == Images(l.wire) && Inv(conf, l.tx) && Runs.Faithful(origin, l)
    {
      hide Shows, Images, Inv, M.Fits, M.RoomInSegment, M.MssGrows, M.Small, Runs.Faithful, Runs.Allowed, Runs.Step,
           Runs.Reachable, SafeRun, Safe, Kept, MayFail, Works, Rightly;
      oks, wire, l := [], [], Runs.Fresh(conf, origin);
      ghost var n: u16 := Started(conf, origin, es, m);
      var i := 0;
      while i < |es|
        invariant i <= |es| && |oks| == i && (forall j :: 0 <= j < i && !oks[j] ==> MayFail(es[j]))
        invariant Shows(l.tx) && wire == Images(l.wire)
        invariant Known(conf, origin, es, i, oks, l, n, m)
        invariant forall j :: 0 <= j < i ==> Rightly(conf, origin, es, memory, oks, j)
      {
        KnownSafe(conf, origin, es, i, oks, l, n, m);
        var ok, sent := Handle(es[i], memory[i], l, n);
        KnownOn(conf, origin, es, i, oks, l, n, m, ok);
        RightlyOn(conf, origin, es, memory, oks, i, ok, l);
        if ok {
          wire := wire + sent;
          l, n := Runs.Step(conf, l, es[i]), if es[i].Write? then es[i].how.mss else n;
        }
        oks := oks + [ok];
        i := i + 1;
      }
      KnownEnd(conf, origin, es, oks, l, n, m);
    }

    /** The part of the ACK processing that classifies the acknowledgement. */
    method AckFront(ackno32: u32, third: bool, ghost ackno: int, ghost s: Tx, ghost base: int) returns (acked: nat)
      requires Shows(s) && Inv(conf, s) && Spread(s, base)
      requires ackno32 == Wrap(ackno) && base <= ackno <= base + 0x4000_0000 && base <= s.lastack
      modifies this`unsent, this`unacked, this`sndBuf, this`sndQueuelen, this`lastack, this`unsentOversize
      ensures Shows(AckHead(s, ackno, third))
      ensures acked == if s.lastack < ackno <= s.sndNxt then
          Max(ackno - s.lastack - Fins(s.unacked[..Acked(s.unacked, ackno)]), 0) else 0
    {
      hide Images, Wrap, Rexmit, Low16, Between, Leq, Acked, Clens, Fins, Spread, Inv, FreeUnacked, Max, AckHead, L.Sorted;
      AckBounds(conf, s, ackno, base);
      AckOrder(conf, s, ackno);
      AckFacts(conf, s, ackno, third, base);
      AckCases(s, ackno, third);
      acked := 0;
      if Leq(ackno32, lastack) {
        if third {
          TcpRexmit(s, base);
        }
      } else if Between(ackno32, Wrap(lastack + 1), sndNxt) {
        acked := AckNew(ackno32, ackno, s, s.(sndBuf := s.sndBuf + Low16(ackno - s.lastack), lastack := ackno), base);
      }
    }

    /** The acknowledgement is for new data; `t` is the state once its bytes are credited. */
    method AckNew(ackno32: u32, ghost ackno: int, ghost s: Tx, ghost t: Tx, ghost base: int) returns (acked: nat)
      requires Shows(s) && t == s.(sndBuf := s.sndBuf + Low16(ackno - s.lastack), lastack := ackno)
      requires Spread(t, base) && Clens(s.unacked) <= s.queueLen
      requires ackno32 == Wrap(ackno) && base <= ackno <= base + 0x4000_0000
      requires 0 < ackno - s.lastack <= 0xffff && s.sndBuf + (ackno - s.lastack) <= 0xffff
      modifies this`unacked, this`sndBuf, this`sndQueuelen, this`lastack
      ensures Shows(FreeUnacked(t, Acked(s.unacked, ackno)))
      ensures acked == Max(ackno - s.lastack - Fins(s.unacked[..Acked(s.unacked, ackno)]), 0)
    {
      WrapSub(ackno, s.lastack);
      WrapSmall(ackno - s.lastack);
      Low16Small(ackno - s.lastack);
      hide Images, Wrap, Low16, Acked, Clens, Fins, Spread, FreeUnacked;
      acked := Low16(Wrap(ackno32 - lastack));
      sndBuf := sndBuf + acked;
      lastack := ackno32;
      acked := PopUnacked(ackno32, acked, ackno, t, base);
    }

    /** Drop the unacked segments that `ackno` covers. */
    method PopUnacked(ackno32: u32, acked0: nat, ghost ackno: int, ghost s: Tx, ghost base: int) returns (acked: nat)
      requires Shows(s) && Spread(s, base) && Clens(s.unacked) <= s.queueLen
      requires ackno32 == Wrap(ackno) && base <= ackno <= base + 0x4000_0000
      modifies this`unacked, this`sndQueuelen
      ensures Shows(FreeUnacked(s, Acked(s.unacked, ackno)))
      ensures acked == Max(acked0 - Fins(s.unacked[..Acked(s.unacked, ackno)]), 0)
    {
      hide Images, Wrap, Leq, Acked, Clens, Fins;
      acked := acked0;
      ghost var q, n := s.unacked, 0;
      PopStart(q);
      while unacked != [] && Leq(Wrap(unacked[0].seqno + unacked[0].TcpLen()), ackno32)
        invariant n <= |q| && unacked == Images(q[n..]) && Acked(q, ackno) == n + Acked(q[n..], ackno)
        invariant sndQueuelen == s.queueLen - Clens(q[..n]) && acked == Max(acked0 - Fins(q[..n]), 0)
        invariant unsent == Images(s.unsent)
        decreases |unacked|
      {
        PopStep(q, n, ackno, base);
        if acked != 0 && unacked[0].fin {
          acked := acked - 1;
        }
        sndQueuelen := sndQueuelen - unacked[0].Clen();
        unacked := unacked[1..];
        n := n + 1;
      }
      PopStop(q, n, ackno, base);
    }

    /** The same for the unsent queue, which holds segments that were sent before a timeout. */
    method PopUnsent(ackno32: u32, acked0: nat, ghost ackno: int, ghost s: Tx, ghost base: int) returns (acked: nat)
      requires Shows(s) && Spread(s, base) && Clens(s.unsent) <= s.queueLen
      requires ackno32 == Wrap(ackno) && base <= ackno <= base + 0x4000_0000
      modifies this`unsent, this`sndQueuelen, this`unsentOversize
      ensures var n := if ackno <= s.sndNxt then Acked(s.unsent, ackno) else 0;
              Shows(FreeUnsent(s, n)) && acked == Max(acked0 - Fins(s.unsent[..n]), 0)
    {
      hide Images, Wrap, Leq, Geq, Acked, Clens, Fins;
      acked := acked0;
      ghost var q, n := s.unsent, 0;
      PopStart(q);
      OrderExact(ackno, s.sndNxt);
      while unsent != [] && Between(ackno32, Wrap(unsent[0].seqno + unsent[0].TcpLen()), sndNxt)
        invariant n <= |q| && unsent == Images(q[n..]) && Acked(q, ackno) == n + Acked(q[n..], ackno)
        invariant sndQueuelen == s.queueLen - Clens(q[..n]) && acked == Max(acked0 - Fins(q[..n]), 0)
        invariant unsentOversize == if n > 0 && n == |q| then 0 else s.oversize
        invariant unacked == Images(s.unacked) && (n > 0 ==> ackno <= s.sndNxt)
        decreases |unsent|
      {
        PopStep(q, n, ackno, base);
        var fin, clen := unsent[0].fin, unsent[0].Clen();
        unsent := unsent[1..];
        if unsent == [] {
          unsentOversize := 0;
        }
        if acked != 0 && fin {
          acked := acked - 1;
        }
        sndQueuelen := sndQueuelen - clen;
        n := n + 1;
      }
      if ackno <= s.sndNxt { PopStop(q, n, ackno, base); }
    }
  }

  lemma PopStart(q: seq<Seg>)
    ensures q[0..] == q && Clens(q[..0]) == 0 && Fins(q[..0]) == 0
  {
  }

  /** One segment at the head of q[n..]: whether it is acknowledged, and what freeing it counts. */
  lemma PopStep(q: seq<Seg>, n: nat, ackno: int, base: int)
    requires n < |q| && base <= ackno <= base + 0x4000_0000
    requires forall g :: g in q ==> base <= g.seqno && g.End() <= base + 0x4000_0000
    ensures var h := Images(q[n..]);
            && h != [] && h[0] == Image(q[n]) && h[1..] == Images(q[n + 1..]) && |h| == |q| - n
            && (Leq(Wrap(h[0].seqno + h[0].TcpLen()), Wrap(ackno)) <==> q[n].End() <= ackno)
            && (Geq(Wrap(ackno), Wrap(h[0].seqno + h[0].TcpLen())) <==> q[n].End() <= ackno)
            && h[0].fin == q[n].fin && h[0].Clen() == q[n].Clen()
    ensures q[n].End() <= ackno ==> Acked(q[n..], ackno) == 1 + Acked(q[n + 1..], ackno)
    ensures Clens(q[..n + 1]) == Clens(q[..n]) + q[n].Clen() <= Clens(q)
    ensures Fins(q[..n + 1]) == Fins(q[..n]) + if q[n].fin then 1 else 0
  {
    hide Wrap, Leq, Geq;
    assert q[n] in q && q[n..][1..] == q[n + 1..] && q[n..][0] == q[n];
    AddWrap(q[n].seqno, q[n].TcpLen());
    OrderExact(q[n].End(), ackno);
    OrderExact(ackno, q[n].End());
    CountsSnoc(q, n);
  }

  lemma {:induction false} CountsSnoc(q: seq<Seg>, n: nat)
    requires n < |q|
    ensures Clens(q[..n + 1]) == Clens(q[..n]) + q[n].Clen() <= Clens(q)
    ensures Fins(q[..n + 1]) == Fins(q[..n]) + if q[n].fin then 1 else 0
    decreases n
  {
    if n > 0 {
      CountsSnoc(q[1..], n - 1);
      assert q[..n + 1][1..] == q[1..][..n] && q[..n][1..] == q[1..][..n - 1];
    } else {
      assert q[..1][1..] == [] && q[..0] == [];
    }
  }

  lemma PopStop(q: seq<Seg>, n: nat, ackno: int, base: int)
    requires n <= |q| && base <= ackno <= base + 0x4000_0000
    requires forall g :: g in q ==> base <= g.seqno && g.End() <= base + 0x4000_0000
    requires Images(q[n..]) == [] || !Leq(Wrap(Images(q[n..])[0].seqno + Images(q[n..])[0].TcpLen()), Wrap(ackno))
             || !Geq(Wrap(ackno), Wrap(Images(q[n..])[0].seqno + Images(q[n..])[0].TcpLen()))
    ensures Acked(q[n..], ackno) == 0
  {
    if n < |q| { PopStep(q, n, ackno, base); }
  }

  /** The bounds the two passes need. */
  lemma AckFacts(c: Conf, s: Tx, ackno: int, third: bool, base: int)
    requires Inv(c, s) && Spread(s, base)
    ensures Clens(s.unacked) <= s.queueLen && L.Sorted(s.unacked)
    ensures forall g :: g in s.unsent && s.unacked != [] ==> g.seqno != s.unacked[0].seqno
    ensures var r := AckHead(s, ackno, third); Spread(r, base) && Clens(r.unsent) <= r.queueLen
    ensures Spread(s.(sndBuf := s.sndBuf + Low16(ackno - s.lastack), lastack := ackno), base)
  {
    hide Merge, Chain, Low16, Wrap, Acked, InsertSorted, L.Sorted;
    L.LineSorted(s.unacked, s.unsent, Base(s), s.lbb + s.extra);
    L.ClensExact(s.unacked);
    L.ClensExact(s.unsent);
    if s.unacked != [] { assert s.unacked[0] in s.unacked; }
    if ackno <= s.lastack {
      if third && s.unacked != [] { RexmitFacts(c, s, base); }
    } else if ackno <= s.sndNxt {
      I.FreeCount(s.unacked, Acked(s.unacked, ackno));
      DroppedSpread(s, Acked(s.unacked, ackno), base);
    }
  }

  lemma TailIs(r: Tx, ackno: int)
    ensures AckTail(r, ackno) == FreeUnsent(r, if ackno <= r.sndNxt then Acked(r.unsent, ackno) else 0)
  {
  }

  lemma AckedCount(s: Tx, ackno: int, third: bool, a: nat)
    requires a == if s.lastack < ackno <= s.sndNxt then
        Max(ackno - s.lastack - Fins(s.unacked[..Acked(s.unacked, ackno)]), 0) else 0
    ensures var r := AckHead(s, ackno, third);
            var n := if ackno <= r.sndNxt then Acked(r.unsent, ackno) else 0;
            Max(a - Fins(r.unsent[..n]), 0)
            == if s.lastack < ackno <= s.sndNxt then
                 Max(ackno - s.lastack - Fins(s.unacked[..Acked(s.unacked, ackno)]) - Fins(s.unsent[..Acked(s.unsent, ackno)]), 0)
               else 0
  {
    hide Fins, Acked, Rexmit, Low16;
  }

  lemma DroppedSpread(s: Tx, n: nat, base: int)
    requires n <= |s.unacked| && Spread(s, base)
    ensures Spread(FreeUnacked(s, n), base)
  {
  }

  lemma RexmitFacts(c: Conf, s: Tx, base: int)
    requires c.Ok() && Counted(c, s) && Spread(s, base) && s.unacked != []
    ensures var r := Rexmit(s); Spread(r, base) && Clens(r.unsent) <= r.queueLen
  {
    hide InsertSorted;
    var h := s.unacked[0];
    assert h in s.unacked;
    I.RexmitCounted(c, s);
    L.ClensExact(Rexmit(s).unsent);
    forall g | g in Rexmit(s).unacked || g in Rexmit(s).unsent ensures g in s.unacked || g in s.unsent {
      I.InsertMembers(s.unsent, h, g);
    }
  }

  lemma AckCases(s: Tx, ackno: int, third: bool)
    ensures AckHead(s, ackno, third) ==
              if ackno <= s.lastack then if third then Rexmit(s) else s
              else if ackno <= s.sndNxt then
                FreeUnacked(s.(sndBuf := s.sndBuf + Low16(ackno - s.lastack), lastack := ackno), Acked(s.unacked, ackno))
              else s
  {
  }

  lemma AckBounds(c: Conf, s: Tx, ackno: int, base: int)
    requires Spread(s, base) && Inv(c, s) && base <= ackno <= base + 0x4000_0000 && base <= s.lastack
    ensures -0x4000_0000 <= ackno - s.lastack <= 0x4000_0000 && -0x4000_0000 <= ackno - s.sndNxt <= 0x4000_0000
  {
  }

  lemma AckOrder(c: Conf, s: Tx, ackno: int)
    requires Inv(c, s) && -0x4000_0000 <= ackno - s.lastack <= 0x4000_0000 && -0x4000_0000 <= ackno - s.sndNxt <= 0x4000_0000
    ensures Leq(Wrap(ackno), Wrap(s.lastack)) <==> ackno <= s.lastack
    ensures Between(Wrap(ackno), Wrap(Wrap(s.lastack) + 1), Wrap(s.sndNxt)) <==> s.lastack + 1 <= ackno <= s.sndNxt
    ensures Low16(Wrap(Wrap(ackno) - Wrap(s.lastack))) == Low16(ackno - s.lastack)
    ensures s.lastack < ackno <= s.sndNxt ==> Low16(ackno - s.lastack) == ackno - s.lastack && s.sndBuf + (ackno - s.lastack) <= 0xffff
  {
    hide Wrap, Low16, Leq, Geq, Merge, Chain;
    AddWrap(s.lastack, 1);
    OrderExact(ackno, s.lastack);
    OrderExact(ackno, s.lastack + 1);
    OrderExact(ackno, s.sndNxt);
    SubWrap(ackno, s.lastack);
    if s.lastack < ackno <= s.sndNxt { Low16Small(ackno - s.lastack); }
  }

  /** Everything queued lies within 2^30 of `base`. */
  ghost predicate Spread(s: Tx, base: int) {
    && base <= s.sndNxt <= base + 0x4000_0000
    && (forall g :: g in s.unacked || g in s.unsent ==> base <= g.seqno && g.End() <= base + 0x4000_0000)
  }

  lemma ImagesNil(q: seq<Seg>)
    ensures Images(q) + [] == Images(q)
  {
  }

  /** What the caller sees to: no data and no FIN is added to a retransmitted segment, and no timeout
      comes while one is outstanding; lengths and acknowledgements are in range. */
  ghost predicate Safe(c: Conf, s: Tx, e: Runs.Event) {
    match e
    case Write(how, arg) =>
      (s.writable ==> I.WriteSafe(s, how, |arg|)) && c.optlen < how.mss <= 0x7fff && |arg| <= 0xffff
    case Close => s.writable ==> I.CloseSafe(s)
    case Timeout(_) => I.RtoSafe(s)
    case AckIn(ackno, _) => s.lastack - 0x1_0000 <= ackno <= s.lastack + 0x3000_0000
    case Send(_) => true
  }

  predicate MayFail(e: Runs.Event) { e.Write? || e.Close? }

  /** The allocations of tcp_write(): each pbuf and each segment that is new afterwards. */
  function Needed(c: Conf, s: Tx, h: How, arg: seq<byte>): int
    requires h.mss > c.optlen
  {
    Pbufs(Extended(c, s, h, arg)) - Pbufs(s.unsent) + |Extended(c, s, h, arg)| - |s.unsent|
  }

  /** When a call succeeds, if `memory` allocations do. */
  ghost predicate Works(c: Conf, s: Tx, e: Runs.Event, memory: nat) {
    match e
    case Write(how, arg) =>
      s.writable && how.mss > c.optlen && (arg == [] || (s.queueLen < c.maxQueue && I.MayWrite(c, s, how, arg) && Needed(c, s, how, arg) <= memory))
    case Close => I.MayClose(c, s) && ((s.unsent != [] && !Last(s.unsent).fin) || memory >= 2)
    case _ => true
  }

  /** The events that did not fail. */
  function Kept(es: seq<Runs.Event>, oks: seq<bool>): seq<Runs.Event>
    requires |es| == |oks|
  {
    if es == [] then []
    else
      var before := Kept(es[..|es| - 1], oks[..|oks| - 1]);
      if oks[|oks| - 1] then before + [es[|es| - 1]] else before
  }

  /** Every event is safe in its turn, whichever writes and closes have failed before. */
  ghost predicate SafeRun(c: Conf, origin: int, es: seq<Runs.Event>) {
    forall i, oks, l :: 0 <= i < |es| && |oks| == i
      && (forall j :: 0 <= j < i && !oks[j] ==> MayFail(es[j]))
      && Runs.Reachable(Runs.Tiling, c, origin, Kept(es[..i], oks), l)
      ==> Safe(c, l.tx, es[i])
  }

  /** What is known after the first i events: n bounds the segments so far. */
  ghost predicate Known(c: Conf, origin: int, es: seq<Runs.Event>, i: nat, oks: seq<bool>, l: Runs.Log, n: u16, m: u16) {
    && i <= |es| && |oks| == i && Runs.Reachable(Runs.Tiling, c, origin, Kept(es[..i], oks), l)
    && Inv(c, l.tx) && Runs.Faithful(origin, l)
    && M.Fits(l.tx, n) && M.RoomInSegment(l.tx) && (forall g :: g in l.wire ==> M.Small(g, n))
    && c.optlen <= n <= m && (forall j :: i <= j < |es| && es[j].Write? ==> n == c.optlen || n <= es[j].how.mss)
    && SafeRun(c, origin, es) && M.MssGrows(c, es, m)
    && (forall j :: 0 <= j < i && !oks[j] ==> MayFail(es[j]))
  }

  lemma Started(c: Conf, origin: int, es: seq<Runs.Event>, m: u16) returns (n: u16)
    requires c.Ok() && SafeRun(c, origin, es) && M.MssGrows(c, es, m)
    ensures Known(c, origin, es, 0, [], Runs.Fresh(c, origin), n, m) && Images([]) == []
  {
    ImagesConcat([], []);
    assert es[..0] == [];
    n := c.optlen;
    assert Runs.Reachable(Runs.Tiling, c, origin, [], Runs.Fresh(c, origin));
    Runs.RunKeeps(c, origin, [], Runs.Fresh(c, origin));
    hide SafeRun, Inv, Runs.Faithful, Runs.Reachable;
  }

  lemma KnownSafe(c: Conf, origin: int, es: seq<Runs.Event>, i: nat, oks: seq<bool>, l: Runs.Log, n: u16, m: u16)
    requires Known(c, origin, es, i, oks, l, n, m) && i < |es|
    ensures Safe(c, l.tx, es[i]) && Inv(c, l.tx) && M.Fits(l.tx, n)
    ensures es[i].Write? ==> c.optlen < es[i].how.mss
  {
    hide Safe, Inv, Runs.Faithful, Runs.Reachable, Kept, M.Fits, M.Small, M.MssGrows, MayFail;
    assert Safe(c, l.tx, es[i]);
    SafeMss(c, l.tx, es[i]);
  }

  lemma SafeMss(c: Conf, s: Tx, e: Runs.Event)
    requires Safe(c, s, e)
    ensures e.Write? ==> c.optlen < e.how.mss <= 0x7fff
  {
  }

  /** One more event, which succeeded or failed. */
  lemma KnownOn(c: Conf, origin: int, es: seq<Runs.Event>, i: nat, oks: seq<bool>, l: Runs.Log, n: u16, m: u16, ok: bool)
    requires Known(c, origin, es, i, oks, l, n, m) && i < |es| && (!ok ==> MayFail(es[i]))
    requires es[i].Write? ==> c.optlen < es[i].how.mss
    requires ok ==> Runs.Allowed(Runs.Tiling, c, l.tx, es[i]) && Runs.Allowed(Runs.Any, c, l.tx, es[i])
    ensures Known(c, origin, es, i + 1, oks + [ok], if ok then Runs.Step(c, l, es[i]) else l,
                  if ok && es[i].Write? then es[i].how.mss else n, m)
  {
    hide Safe, SafeRun, Inv, Runs.Faithful, Runs.Reachable, Kept, Runs.Allowed, Runs.Step, MayFail, M.Fits, M.Small, M.RoomInSegment;
    KeptOn(es, oks, i, ok);
    InvFacts(c, l.tx);
    if ok {
      Runs.ReachOn(Runs.Tiling, c, origin, Kept(es[..i], oks), l, es[i]);
      Runs.RunKeeps(c, origin, Kept(es[..i], oks) + [es[i]], Runs.Step(c, l, es[i]));
      M.StepFits(c, l, es[i], n);
    }
  }

  lemma KeptOn(es: seq<Runs.Event>, oks: seq<bool>, i: nat, ok: bool)
    requires i < |es| && |oks| == i
    ensures Kept(es[..i + 1], oks + [ok]) == if ok then Kept(es[..i], oks) + [es[i]] else Kept(es[..i], oks)
  {
    assert es[..i + 1][..i] == es[..i] && (oks + [ok])[..i] == oks;
  }

  /** Event i worked exactly when it should, in the state that the events before it have left. */
  ghost predicate Rightly(c: Conf, origin: int, es: seq<Runs.Event>, memory: seq<nat>, oks: seq<bool>, i: nat)
    requires i < |es| == |memory| && i < |oks|
  {
    exists k: Runs.Log {:trigger Runs.Reachable(Runs.Tiling, c, origin, Kept(es[..i], oks[..i]), k)} ::
      && Runs.Reachable(Runs.Tiling, c, origin, Kept(es[..i], oks[..i]), k)
      && (oks[i] <==> Works(c, k.tx, es[i], memory[i]))
  }

  lemma RightlyOn(c: Conf, origin: int, es: seq<Runs.Event>, memory: seq<nat>, oks: seq<bool>, i: nat, ok: bool, l: Runs.Log)
    requires |oks| == i < |es| == |memory| && forall j :: 0 <= j < i ==> Rightly(c, origin, es, memory, oks, j)
    requires Runs.Reachable(Runs.Tiling, c, origin, Kept(es[..i], oks), l) && (ok <==> Works(c, l.tx, es[i], memory[i]))
    ensures forall j :: 0 <= j < i + 1 ==> Rightly(c, origin, es, memory, oks + [ok], j)
  {
    hide Runs.Reachable, Kept, Works;
    forall j | 0 <= j < i + 1 ensures Rightly(c, origin, es, memory, oks + [ok], j) {
      assert (oks + [ok])[..j] == oks[..j];
      if j < i {
        assert Rightly(c, origin, es, memory, oks, j);
      } else {
        assert oks[..i] == oks;
        assert Runs.Reachable(Runs.Tiling, c, origin, Kept(es[..i], (oks + [ok])[..i]), l);
      }
    }
  }

  lemma KnownEnd(c: Conf, origin: int, es: seq<Runs.Event>, oks: seq<bool>, l: Runs.Log, n: u16, m: u16)
    requires Known(c, origin, es, |es|, oks, l, n, m)
    ensures |oks| == |es| && Runs.Reachable(Runs.Tiling, c, origin, Kept(es, oks), l) && Inv(c, l.tx) && Runs.Faithful(origin, l)
  {
    hide SafeRun, Inv, Runs.Faithful, Runs.Reachable, Kept;
    assert es[..|es|] == es;
  }

  /** A tcp_write() of nothing goes ahead unless the sending side is closed. */
  lemma MayWriteNothing(c: Conf, s: Tx, how: How)
    requires Inv(c, s) && how.mss > c.optlen
    ensures s.writable ==> I.MayWrite(c, s, how, [])
  {
    hide Merge, Chain;
    NothingExtended(c, s, how);
  }

  lemma NothingExtended(c: Conf, s: Tx, how: How)
    requires how.mss > c.optlen && c.align > 0
    ensures Extended(c, s, how, []) == s.unsent
  {
    hide Space;
    I.WriteShape(c, s, how, []);
    assert Tail(s, how, 0) == 0;
  }

  lemma InvFacts(c: Conf, s: Tx)
    requires Inv(c, s)
    ensures c.Ok() && s.sndBuf <= 0xffff && (s.unsent == [] ==> s.oversize == 0) && (s.writable ==> s.extra == 0)
  {
  }

  /** The invariant, with segments that fit the MSS, keeps everything within 2^16 of the oldest
      unacknowledged byte. */
  lemma InvSpread(c: Conf, s: Tx, m: u16)
    requires Inv(c, s) && M.Fits(s, m)
    ensures forall g :: g in s.unacked || g in s.unsent ==> s.lastack - 0x1_0000 <= g.seqno && g.End() <= s.lastack + 0x1_0000
    ensures s.lastack <= s.sndNxt <= s.lastack + 0x1_0000
    ensures Spread(s, s.lastack - 0x1_0000)
  {
    hide Merge, Chain;
    var line := Line(s);
    forall g | g in s.unacked || g in s.unsent
      ensures s.lastack - 0x1_0000 <= g.seqno && g.End() <= s.lastack + 0x1_0000
    {
      L.MergeMembers(s.unacked, s.unsent, g);
      var i :| 0 <= i < |line| && line[i] == g;
      L.ChainAt(line, Base(s), s.lbb + s.extra, i);
      L.MergeMembers(s.unacked, s.unsent, line[0]);
      assert M.Small(line[0], m);
    }
  }

  lemma LastImage(q: seq<Seg>)
    requires q != []
    ensures Images(q) != [] && Last(Images(q)) == Image(Last(q))
    ensures Images(q[..|q| - 1] + [Last(q).(fin := true)]) == Images(q)[..|q| - 1] + [Image(Last(q)).(fin := true)]
  {
  }

  lemma HeadImage(q: seq<Seg>)
    requires q != []
    ensures Images(q) != [] && Images(q)[0] == Image(q[0]) && Images(q)[1..] == Images(q[1..])
    ensures |Images(q)| == |q|
  {
  }

  lemma WindowExact(g: Seg, lastack: int)
    ensures Wrap(Image(g).seqno - Wrap(lastack) + |g.data|) == Wrap(g.seqno - lastack + |g.data|)
  {
    hide Wrap;
    WrapSub(g.seqno, lastack);
    AddWrap(g.seqno - lastack, |g.data|);
    var x: int := Wrap(g.seqno) - Wrap(lastack);
    AddWrap(x, |g.data|);
    assert Image(g).seqno - Wrap(lastack) + |g.data| == x + |g.data|;
  }

  lemma SpreadSend(s: Tx, base: int)
    requires Spread(s, base) && s.unsent != []
    ensures Spread(SendOne(s), base) && base <= s.unsent[0].seqno && s.unsent[0].End() <= base + 0x4000_0000
  {
    var g := s.unsent[0];
    assert g in s.unsent;
    var r := SendOne(s);
    forall h | h in r.unacked || h in r.unsent ensures base <= h.seqno && h.End() <= base + 0x4000_0000 {
      I.InsertMembers(s.unacked, g, h);
    }
  }

  ghost predicate Within(q: seq<Seg>, base: int) {
    forall i :: 0 <= i < |q| ==> base <= q[i].seqno <= base + 0x4000_0000
  }

  /** Put a sent segment on the unacked queue. */
  method PutSent(unacked: seq<Seg>, seg: Seg, ghost q: seq<Seg>, ghost g: Seg, ghost base: int) returns (r: seq<Seg>)
    requires unacked == Images(q) && seg == Image(g) && base <= g.seqno <= base + 0x4000_0000 && Within(q, base)
    ensures r == Images(PutUnacked(q, g))
  {
    hide Images, Wrap, InsertSorted;
    ImagesOne(g);
    if unacked == [] {
      return [seg];
    }
    LastImage(q);
    OrderExact(g.seqno, Last(q).seqno);
    if Lt(seg.seqno, Last(unacked).seqno) {
      var list, _ := InsertInOrder(unacked, seg, q, g, base);
      r := list;
    } else {
      ImagesConcat(q, [g]);
      r := unacked + [seg];
    }
  }

  lemma OutputStart(c: Conf, s: Tx, p: Pace)
    ensures Output(c, s, p) == (Output(c, s, p).0, [] + Output(c, s, p).1) && Images([]) == []
  {
    hide Output;
    assert [] + Output(c, s, p).1 == Output(c, s, p).1;
  }

  lemma OutputGo(c: Conf, s: Tx, t: Tx, w: seq<Seg>, p: Pace)
    requires Sendable(c, t, p) && Output(c, s, p) == (Output(c, t, p).0, w + Output(c, t, p).1)
    ensures Output(c, s, p) == (Output(c, SendOne(t), p).0, w + [t.unsent[0]] + Output(c, SendOne(t), p).1)
  {
    hide SendOne;
    assert w + ([t.unsent[0]] + Output(c, SendOne(t), p).1) == w + [t.unsent[0]] + Output(c, SendOne(t), p).1;
  }

  lemma OutputStop(c: Conf, s: Tx, t: Tx, w: seq<Seg>, p: Pace)
    requires !Sendable(c, t, p) && Output(c, s, p) == (Output(c, t, p).0, w + Output(c, t, p).1)
    ensures Output(c, s, p) == (if t.unsent == [] then t.(oversize := 0) else t, w)
  {
    assert w + [] == w;
  }

  lemma {:induction false} InsertAt(q: seq<Seg>, g: Seg, i: nat)
    requires i <= |q| && (forall j :: 0 <= j < i ==> q[j].seqno < g.seqno) && (i < |q| ==> q[i].seqno >= g.seqno)
    ensures InsertSorted(q, g) == q[..i] + [g] + q[i..]
    decreases i
  {
    if i > 0 {
      InsertAt(q[1..], g, i - 1);
      assert q[..i] == [q[0]] + q[1..][..i - 1] && q[1..][i - 1..] == q[i..];
    } else {
      assert [] + [g] + q == [g] + q && q[0..] == q && q[..0] == [];
    }
  }

  lemma LastInserted(q: seq<Seg>, g: Seg, i: nat)
    requires i <= |q| && forall h :: h in q ==> h != g
    ensures Last(q[..i] + [g] + q[i..]) == g <==> i == |q|
  {
    if i < |q| { assert Last(q[..i] + [g] + q[i..]) == Last(q) && Last(q) in q; }
  }

  lemma ImagesInserted(q: seq<Seg>, g: Seg, i: nat)
    requires i <= |q|
    ensures Images(q[..i] + [g] + q[i..]) == Images(q)[..i] + [Image(g)] + Images(q)[i..]
  {
  }

  /** Insert before the first segment that does not start below `seg`; says whether it became the
      last one. */
  method InsertInOrder(list: seq<Seg>, seg: Seg, ghost q: seq<Seg>, ghost g: Seg, ghost base: int) returns (r: seq<Seg>, last: bool)
    requires list == Images(q) && seg == Image(g) && base <= g.seqno <= base + 0x4000_0000 && Within(q, base)
    ensures r == Images(InsertSorted(q, g))
    ensures (forall h :: h in q ==> h != g) ==> (last <==> Last(InsertSorted(q, g)) == g)
  {
    hide Wrap, Lt, InsertSorted;
    var i := 0;
    while i < |list| && Lt(list[i].seqno, seg.seqno)
      invariant 0 <= i <= |list|
      invariant forall j :: 0 <= j < i ==> q[j].seqno < g.seqno
    {
      OrderExact(q[i].seqno, g.seqno);
      i := i + 1;
    }
    if i < |list| { OrderExact(q[i].seqno, g.seqno); }
    InsertAt(q, g, i);
    ImagesInserted(q, g, i);
    if forall h :: h in q ==> h != g { LastInserted(q, g, i); }
    r := list[..i] + [seg] + list[i..];
    last := i == |list|;
  }

  /** Everything a successful tcp_write() commits. */
  ghost predicate CommitsTo(c: Conf, s: Tx, h: How, arg: seq<byte>, unsent: seq<Seg>, queuelen: nat, oversize: nat)
    requires h.mss > c.optlen && c.align > 0
  {
    var r := Written(c, s, h, arg);
    && unsent == Images(r.unsent) && queuelen == r.queueLen && oversize == r.oversize
    && Wrap(Wrap(s.lbb) + |arg|) == Wrap(r.lbb) && r.sndBuf == s.sndBuf - |arg|
    && r.unacked == s.unacked && r.sndNxt == s.sndNxt && r.lastack == s.lastack && r.writable == s.writable
    && (s.writable && |arg| <= s.sndBuf && queuelen <= c.maxQueue ==> I.MayWrite(c, s, h, arg))
  }

  /** The three phases of tcp_write() on its local variables: the new unsent queue, snd_queuelen and
      unsent_oversize, or failure. */
  method Prepare(conf: Conf, arg: seq<byte>, how: How, unsent: seq<Seg>, busy: bool, sndQueuelen: nat, unsentOversize: nat,
                 sndLbb: u32, memory: nat, ghost s: Tx)
    returns (ok: bool, newUnsent: seq<Seg>, queuelen: nat, oversize: nat)
    requires unsent == Images(s.unsent) && busy == Busy(s) && sndQueuelen == s.queueLen
    requires unsentOversize == s.oversize && sndLbb == Wrap(s.lbb)
    requires conf.Ok() && how.mss > conf.optlen && (s.unsent == [] ==> s.oversize == 0)
    ensures ok ==> CommitsTo(conf, s, how, arg, newUnsent, queuelen, oversize)
    ensures ok ==> queuelen <= conf.maxQueue || (queuelen <= sndQueuelen + if arg == [] then 0 else 1)
    ensures ok <==> Needed(conf, s, how, arg) <= memory && (NewSegments(conf, s, how, arg) != [] ==> Longer(conf, s, how, arg) <= conf.maxQueue)
  {
    hide Images, OversizeTail, Extra, Wrap, Low16, Fill, Concat, Written, CommitsTo, Chunks, Extended, NewSegments;
    BoundsOk(conf, s, how, arg);
    NeededIs(conf, s, how, arg);
    var fill, concat, queue, left;
    newUnsent := [];
    ok, fill, concat, queuelen, oversize, left := FillTail(conf, |arg|, how, busy, unsent, sndQueuelen, unsentOversize, memory, s);
    if !ok { return; }
    ok, queue, queuelen, oversize := MakeSegments(conf, arg, fill + concat, how, busy, queuelen, oversize, sndLbb, left, s.lbb);
    if !ok { return; }
    newUnsent := if unsent == [] then queue else unsent[..|unsent| - 1] + [GrownImage(Last(unsent), arg, fill, concat)] + queue;
    Committed(conf, s, how, arg, newUnsent, queue, queuelen, oversize);
  }

  /** snd_queuelen after tcp_write(). */
  function Longer(c: Conf, s: Tx, h: How, arg: seq<byte>): int
    requires h.mss > c.optlen
  {
    s.queueLen + Pbufs(Extended(c, s, h, arg)) - Pbufs(s.unsent)
  }

  lemma NeededIs(c: Conf, s: Tx, h: How, arg: seq<byte>)
    requires h.mss > c.optlen && c.align > 0
    ensures var n, x := |NewSegments(c, s, h, arg)|, if Concat(s, h, |arg|) > 0 then 1 else 0;
            && Needed(c, s, h, arg) == x + (if h.copy then 2 * n else 3 * n)
            && Longer(c, s, h, arg) == s.queueLen + x + (if h.copy then n else 2 * n)
    ensures var t := Tail(s, h, |arg|);
            NewSegments(c, s, h, arg) == Chunks(arg[t..], s.lbb + t, h.mss - c.optlen, c.optlen, if h.copy then 1 else 2)
  {
    hide Chunks, Extended, Tail, NewSegments, Pbufs, Concat;
    WrittenPbufs(c, s, h, arg);
    I.WriteShape(c, s, h, arg);
  }

  lemma OnlyOpen(c: Conf, s: Tx)
    ensures I.MayClose(c, s) ==> s.writable
  {
  }

  /** tcp_write() has room in the queue: one more pbuf, if no new segment is needed. */
  lemma Room(c: Conf, s: Tx, h: How, arg: seq<byte>)
    requires h.mss > c.optlen && c.align > 0
    ensures arg == [] ==> Needed(c, s, h, arg) == 0 && NewSegments(c, s, h, arg) == []
    ensures s.writable && |arg| <= s.sndBuf && s.queueLen < c.maxQueue ==>
      (I.MayWrite(c, s, h, arg) <==> (NewSegments(c, s, h, arg) != [] ==> Longer(c, s, h, arg) <= c.maxQueue))
    ensures I.MayWrite(c, s, h, arg) ==> |arg| <= s.sndBuf
  {
    NeededIs(c, s, h, arg);
    I.WriteShape(c, s, h, arg);
    I.WriteNewSegments(c, s, h, arg);
    BoundsHold(s, h, |arg|);
    hide Chunks, Extended, Tail, NewSegments, Pbufs, Concat, Needed;
  }

  lemma BoundsHold(s: Tx, h: How, len: nat)
    ensures len == 0 ==> Concat(s, h, len) == 0 && Tail(s, h, len) == 0
  {
  }

  /** The last unsent segment with the data of phases 1 and 2. */
  function GrownImage(last: Seg, arg: seq<byte>, fill: nat, concat: nat): Seg
    requires fill + concat <= |arg|
  {
    last.(data := last.data + arg[..fill] + arg[fill..fill + concat], pbufs := last.pbufs + if concat > 0 then 1 else 0)
  }

  /** What the commit at the end of tcp_write() amounts to. */
  lemma Committed(c: Conf, s: Tx, h: How, arg: seq<byte>, unsent: seq<Seg>, queue: seq<Seg>, queuelen: nat, oversize: nat)
    requires h.mss > c.optlen && c.Ok() && (s.unsent == [] ==> s.oversize == 0)
    requires var f, n := Fill(s, |arg|), Concat(s, h, |arg|);
             && f + n <= |arg|
             && queue == Images(Chunks(arg[f + n..], s.lbb + (f + n), h.mss - c.optlen, c.optlen, if h.copy then 1 else 2))
             && unsent == (if s.unsent == [] then queue else Images(s.unsent)[..|s.unsent| - 1] + [GrownImage(Last(Images(s.unsent)), arg, f, n)] + queue)
             && queuelen == s.queueLen + (if n > 0 then 1 else 0) + (if h.copy then |queue| else 2 * |queue|)
             && oversize == if queue != [] && h.copy then Extra(c, Busy(s), h, |Last(queue).data| + c.optlen, h.mss, |queue| == 1) else OversizeTail(c, s, h, |arg|)
    ensures CommitsTo(c, s, h, arg, unsent, queuelen, oversize)
  {
    hide Images, OversizeTail, OversizeAfter, Extra, Wrap, Low16, Fill, Concat, Chunks, Extended, GrownImage;
    CommitImages(c, s, h, arg);
    WrittenPbufs(c, s, h, arg);
    WrittenOversize(c, s, h, arg);
    AddWrap(s.lbb, |arg|);
  }

  lemma BoundsOk(c: Conf, s: Tx, h: How, arg: seq<byte>)
    requires c.Ok()
    ensures c.align > 0 && c.maxQueue <= 0xff && Fill(s, |arg|) + Concat(s, h, |arg|) == Tail(s, h, |arg|) <= |arg|
    ensures s.unsent == [] ==> Fill(s, |arg|) == 0 && Concat(s, h, |arg|) == 0
    ensures arg == [] ==> Concat(s, h, |arg|) == 0
  {
  }

  /** Phases 1 and 2 of tcp_write(): what goes into the last unsent segment. */
  method FillTail(conf: Conf, len: nat, how: How, busy: bool, unsent: seq<Seg>, queuelen0: nat, unsentOversize: nat, memory: nat, ghost s: Tx)
    returns (ok: bool, fill: nat, concat: nat, queuelen: nat, oversize: nat, left: nat)
    requires unsent == Images(s.unsent) && unsentOversize == s.oversize && conf.align > 0 && busy == Busy(s)
    ensures ok ==>
      && fill == Fill(s, len) && concat == Concat(s, how, len) && oversize == OversizeTail(conf, s, how, len)
      && queuelen == queuelen0 + (if concat > 0 then 1 else 0) && left == memory - (if concat > 0 then 1 else 0)
    ensures ok <==> (if Concat(s, how, len) > 0 then 1 else 0) <= memory
  {
    hide Extra, Low16, Images;
    ok, fill, concat, queuelen, oversize, left := true, 0, 0, queuelen0, 0, memory;
    if unsent != [] {
      var last := Last(unsent);
      ImagesSplit(s.unsent, |s.unsent| - 1);
      ImagesOne(Last(s.unsent));
      assert s.unsent[|s.unsent| - 1..] == [Last(s.unsent)];
      var space := Low16(how.mss - (|last.data| + last.opts));
      oversize := unsentOversize;
      if oversize > 0 {
        fill := Min(oversize, len);
        oversize, space := oversize - fill, Low16(space - fill);
      } else {
        Low16Small(space);
      }
      if fill < len && space > 0 && |last.data| > 0 {
        concat := Min(space, len - fill);
        ok := left > 0;
        if ok {
          if how.copy {
            oversize := Extra(conf, busy, how, concat, space, true);
          }
          queuelen := queuelen + 1;
          left := left - 1;
        }
      }
    }
  }

  /** Phase 3 of tcp_write(): new segments for arg[pos0..], queued only when all of them could be
      made. */
  method MakeSegments(conf: Conf, arg: seq<byte>, pos0: nat, how: How, busy: bool, queuelen0: nat, oversize0: nat, sndLbb: u32, memory: nat,
                      ghost lbb: int)
    returns (ok: bool, queue: seq<Seg>, queuelen: nat, oversize: nat)
    requires pos0 <= |arg| && how.mss > conf.optlen && conf.Ok() && sndLbb == Wrap(lbb)
    ensures ok ==>
      && queue == Images(Chunks(arg[pos0..], lbb + pos0, how.mss - conf.optlen, conf.optlen, if how.copy then 1 else 2))
      && queuelen == queuelen0 + (if how.copy then |queue| else 2 * |queue|)
      && oversize == (if queue != [] && how.copy then Extra(conf, busy, how, |Last(queue).data| + conf.optlen, how.mss, |queue| == 1) else oversize0)
      && (queue != [] ==> queuelen <= conf.maxQueue)
    ensures var n := |Chunks(arg[pos0..], lbb + pos0, how.mss - conf.optlen, conf.optlen, if how.copy then 1 else 2)|;
            ok <==> (if how.copy then 2 * n else 3 * n) <= memory && (n > 0 ==> queuelen0 + (if how.copy then n else 2 * n) <= conf.maxQueue)
  {
    hide Images, Extra, Wrap, Chunks;
    var pos, left := pos0, memory;
    queue, queuelen, oversize := [], queuelen0, oversize0;
    var size := how.mss - conf.optlen;
    var per := if how.copy then 1 else 2;
    ghost var all := Chunks(arg[pos0..], lbb + pos0, size, conf.optlen, per);
    ChunksStart(all);
    while pos < |arg|
      invariant pos0 <= pos <= |arg| && |queue| <= |all|
      invariant queue == Images(all[..|queue|]) && all[|queue|..] == Chunks(arg[pos..], lbb + pos, size, conf.optlen, per)
      invariant queuelen == queuelen0 + if how.copy then |queue| else 2 * |queue|
      invariant oversize == if queue != [] && how.copy then Extra(conf, busy, how, |Last(queue).data| + conf.optlen, how.mss, |queue| == 1) else oversize0
      invariant queue != [] ==> queuelen <= conf.maxQueue
      invariant left == memory - if how.copy then 2 * |queue| else 3 * |queue|
    {
      var rest := |arg| - pos;
      var seglen := if rest > size then size else rest;
      ChunksNext(all, |queue|, arg, pos, lbb, size, conf.optlen, per);
      ok := left >= per;
      if !ok { return; }
      left := left - per;
      if how.copy {
        oversize := Extra(conf, busy, how, seglen + conf.optlen, how.mss, queue == []);
      }
      queuelen := queuelen + per;
      if queuelen > conf.maxQueue || queuelen > 0xfffc {
        ok := false;
        return;
      }
      ok := left > 0;
      if !ok { return; }
      left := left - 1;
      AddWrap(lbb, pos);
      queue := queue + [Seg(Wrap(sndLbb + pos), arg[pos..pos + seglen], false, conf.optlen, per)];
      pos := pos + seglen;
    }
    ChunksDone(all, |queue|, arg[pos..], lbb + pos, size, conf.optlen, per);
    ok := true;
  }

  lemma ChunksStart(all: seq<Seg>)
    ensures all[0..] == all && Images(all[..0]) == []
  {
  }

  lemma ChunksDone(all: seq<Seg>, k: nat, data: seq<byte>, seqno: int, size: nat, opts: nat, pbufs: nat)
    requires size > 0 && k <= |all| && data == [] && all[k..] == Chunks(data, seqno, size, opts, pbufs)
    ensures all[..k] == all
  {
    assert all == all[..k] + all[k..];
  }

  /** The next segment of phase 3. */
  lemma ChunksNext(all: seq<Seg>, k: nat, arg: seq<byte>, pos: nat, lbb: int, size: nat, opts: nat, pbufs: nat)
    requires size > 0 && k <= |all| && pos < |arg| && all[k..] == Chunks(arg[pos..], lbb + pos, size, opts, pbufs)
    ensures var n := if |arg| - pos > size then size else |arg| - pos;
            && k < |all| && pos + n <= |arg|
            && Images(all[..k]) + [Seg(Wrap(lbb + pos), arg[pos..pos + n], false, opts, pbufs)] == Images(all[..k + 1])
            && all[k + 1..] == Chunks(arg[pos + n..], lbb + (pos + n), size, opts, pbufs)
  {
    var n := Min(|arg| - pos, size);
    var c := Chunks(arg[pos..], lbb + pos, size, opts, pbufs);
    assert c[0] == Seg(lbb + pos, arg[pos..][..n], false, opts, pbufs);
    assert c[1..] == Chunks(arg[pos..][n..], lbb + pos + n, size, opts, pbufs);
    assert arg[pos..][..n] == arg[pos..pos + n] && arg[pos..][n..] == arg[pos + n..];
    assert all[k] == c[0] && all[k + 1..] == c[1..];
  }

  lemma WrittenOversize(c: Conf, s: Tx, h: How, arg: seq<byte>)
    requires h.mss > c.optlen && c.align > 0
    ensures var q := Images(NewSegments(c, s, h, arg));
            OversizeAfter(c, s, h, arg) == if q != [] && h.copy then Extra(c, Busy(s), h, |Last(q).data| + c.optlen, h.mss, |q| == 1)
                                           else OversizeTail(c, s, h, |arg|)
  {
    hide NewSegments, Extra;
  }

  /** The image of the queue tcp_write() commits. */
  lemma CommitImages(c: Conf, s: Tx, h: How, arg: seq<byte>)
    requires h.mss > c.optlen && c.align > 0
    ensures var q := Images(s.unsent);
            var x := Images(NewSegments(c, s, h, arg));
            var f := Fill(s, |arg|);
            && (s.unsent == [] ==> Images(Extended(c, s, h, arg)) == x)
            && (s.unsent != [] ==>
                Images(Extended(c, s, h, arg)) == q[..|q| - 1] + [GrownImage(Last(q), arg, f, Concat(s, h, |arg|))] + x)
  {
    hide NewSegments, Extended, Images, Wrap, Concat;
    I.WriteShape(c, s, h, arg);
    if s.unsent != [] {
      var b := s.unsent[..|s.unsent| - 1];
      var l, l' := Last(s.unsent), I.Grown(s, h, arg);
      var x := NewSegments(c, s, h, arg);
      var f, t := Fill(s, |arg|), Tail(s, h, |arg|);
      ImagesConcat(b, [l'] + x);
      ImagesConcat([l'], x);
      ImagesOne(l');
      ImagesSplit(s.unsent, |b|);
      assert l.data + arg[..f] + arg[f..t] == l.data + arg[..t];
      assert Images(b) + ([Image(l')] + Images(x)) == Images(b) + [Image(l')] + Images(x);
    }
  }
}
