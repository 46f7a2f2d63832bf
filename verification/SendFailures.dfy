/** Runs of the send path after which data or a FIN goes into a retransmitted segment, and what a
    receiver then sees. */
module SendFailures {
  import opened SeqNum
  import opened SendQueue
  import opened SendLine
  import opened SendInvariant
  import opened SendRuns
  import R = Reassembly
  import Rec = ReceiveRuns

  /** Two segments are written and sent, and the third duplicate acknowledgement comes. */
  function Retransmitting(x: seq<byte>, y: seq<byte>): seq<Event> {
    [] + Sending(x) + Sending(y) + [AckIn(0, true)]
  }

  function Sending(x: seq<byte>): seq<Event> { [Write(Plain, x), Send(Now)] }

  const SmallConf := Conf(2920, 10, 0, 4, 0)
  const Plain := How(true, false, true, 1460)
  const Now := Pace(10000, true, 1460)

  function OneSent(l: Log, g: Seg): Log {
    Log(Tx([], l.tx.unacked + [g], g.End(), g.End(), 0, l.tx.sndBuf - |g.data|, l.tx.queueLen + 1, 0, 0, true),
        l.accepted + g.data, l.wire + [g])
  }

  /** Nothing waits to be sent, and there is room for 100 bytes. */
  ghost predicate AllSent(l: Log) {
    && l.tx.unsent == [] && l.tx.writable && l.tx.sndBuf >= 100 && l.tx.queueLen < 10
    && l.tx.lastack == 0 && l.tx.sndNxt == l.tx.lbb && 0 <= l.tx.lbb <= 100 && l.tx.oversize == 0 && l.tx.extra == 0
    && forall i :: 0 <= i < |l.tx.unacked| ==> l.tx.unacked[i].seqno < l.tx.lbb
  }

  lemma WritesIt(s: Tx, x: seq<byte>)
    requires |x| == 100 && s.unsent == [] && s.writable && s.sndBuf >= 100 && s.queueLen < 10 && s.oversize == 0
    ensures Written(SmallConf, s, Plain, x)
            == s.(unsent := [Seg(s.lbb, x, false, 0, 1)], lbb := s.lbb + 100, sndBuf := s.sndBuf - 100, queueLen := s.queueLen + 1)
    ensures MayWrite(SmallConf, s, Plain, x) && WriteSafe(s, Plain, 100)
  {
    var g := Seg(s.lbb, x, false, 0, 1);
    assert x[0..] == x && x[..100] == x && x[100..] == [];
    assert Chunks(x, s.lbb, 1460, 0, 1) == [g] + Chunks([], s.lbb + 100, 1460, 0, 1);
    assert Extended(SmallConf, s, Plain, x) == [g];
    assert Pbufs([g]) == 1 && Pbufs([]) == 0 by { assert [g][1..] == []; }
  }

  /** Write one segment and send it. */
  lemma SendOneMore(es: seq<Event>, l: Log, x: seq<byte>)
    requires |x| == 100 && Reachable(Tiling, SmallConf, 0, es, l) && AllSent(l)
    ensures Reachable(Tiling, SmallConf, 0, es + Sending(x), OneSent(l, Seg(l.tx.lbb, x, false, 0, 1)))
  {
    hide Reachable, MayWrite, WriteSafe, Written, Output;
    var c, s, g := SmallConf, l.tx, Seg(l.tx.lbb, x, false, 0, 1);
    WritesIt(s, x);
    ReachOn(Tiling, c, 0, es, l, Write(Plain, x));
    var m := Step(c, l, Write(Plain, x));
    ReachOn(Tiling, c, 0, es + [Write(Plain, x)], m, Send(Now));
    SendsIt(c, m.tx, g, Now);
    assert Step(c, m, Send(Now)) == OneSent(l, g);
    assert es + [Write(Plain, x)] + [Send(Now)] == es + Sending(x);
  }

  lemma SendsIt(c: Conf, t: Tx, g: Seg, pace: Pace)
    requires t.unsent == [g] && |g.data| == 100 && !g.fin && 0 <= g.seqno <= 100 && t.lastack == 0 && pace == Now
    requires t.sndNxt <= g.End() && t.oversize == 0
    requires forall i :: 0 <= i < |t.unacked| ==> t.unacked[i].seqno < g.seqno
    ensures Output(c, t, pace) == (t.(unsent := [], unacked := t.unacked + [g], sndNxt := g.End()), [g])
  {
    assert t.unsent[1..] == [];
    assert SendOne(t) == t.(unsent := [], unacked := t.unacked + [g], sndNxt := g.End());
    assert [g] + [] == [g];
  }

  /** Both segments are sent and none is acknowledged. */
  function BothSent(a: Seg, b: Seg): Log {
    Log(Tx([], [a, b], 200, 200, 0, 2720, 2, 0, 0, true), a.data + b.data, [a, b])
  }

  function FirstSent(a: Seg): Log {
    Log(Tx([], [a], 100, 100, 0, 2820, 1, 0, 0, true), a.data, [a])
  }

  lemma FirstSentReached(x: seq<byte>)
    requires |x| == 100
    ensures Reachable(Tiling, SmallConf, 0, [] + Sending(x), FirstSent(Seg(0, x, false, 0, 1))) && AllSent(FirstSent(Seg(0, x, false, 0, 1)))
  {
    hide Reachable, Sending;
    var l0, a := Fresh(SmallConf, 0), Seg(0, x, false, 0, 1);
    FreshReached();
    SendOneMore([], l0, x);
    OneSentFirst(a);
  }

  lemma FreshReached()
    ensures Reachable(Tiling, SmallConf, 0, [], Fresh(SmallConf, 0))
  {
  }

  lemma OneSentFirst(a: Seg)
    requires a.seqno == 0 && |a.data| == 100 && !a.fin && a.pbufs == 1
    ensures OneSent(Fresh(SmallConf, 0), a) == FirstSent(a)
  {
    assert [] + [a] == [a] && [] + a.data == a.data;
  }

  lemma BothSentReached(x: seq<byte>, y: seq<byte>)
    requires |x| == 100 && |y| == 100
    ensures Reachable(Tiling, SmallConf, 0, [] + Sending(x) + Sending(y), BothSent(Seg(0, x, false, 0, 1), Seg(100, y, false, 0, 1)))
  {
    hide Reachable, Sending, AllSent;
    var a, b := Seg(0, x, false, 0, 1), Seg(100, y, false, 0, 1);
    FirstSentReached(x);
    SendOneMore([] + Sending(x), FirstSent(a), y);
    assert [a] + [b] == [a, b];
    assert OneSent(FirstSent(a), b) == BothSent(a, b);
  }

  lemma RetransmittingReached(x: seq<byte>, y: seq<byte>)
    requires |x| == 100 && |y| == 100
    ensures var a, b := Seg(0, x, false, 0, 1), Seg(100, y, false, 0, 1);
            Reachable(Tiling, SmallConf, 0, Retransmitting(x, y),
                      Log(Tx([a], [b], 200, 200, 0, 2720, 2, 0, 0, true), x + y, [a, b]))
  {
    hide Reachable, AckReceived, Output, Written, Sending;
    var a, b := Seg(0, x, false, 0, 1), Seg(100, y, false, 0, 1);
    BothSentReached(x, y);
    ReachOn(Tiling, SmallConf, 0, [] + Sending(x) + Sending(y), BothSent(a, b), AckIn(0, true));
    BackToUnsent(a, b, BothSent(a, b).tx);
  }

  /** Each of the three failures happens after a run of allowed steps: the first segment is waiting to
      be sent again, and the second one is still unacknowledged. Then writing a single byte puts it
      into that segment, closing puts the FIN into it, and a timeout queues it behind the second. */
  lemma FailuresReached(x: seq<byte>, y: seq<byte>, z: byte)
    requires |x| == 100 && |y| == 100
    ensures var s := Tx([Seg(0, x, false, 0, 1)], [Seg(100, y, false, 0, 1)], 200, 200, 0, 2720, 2, 0, 0, true);
            var l := Log(s, x + y, [Seg(0, x, false, 0, 1), Seg(100, y, false, 0, 1)]);
            && Reachable(Tiling, SmallConf, 0, Retransmitting(x, y), l) && Inv(SmallConf, s)
            && MayWrite(SmallConf, s, Plain, [z]) && !WriteSafe(s, Plain, 1) && !Inv(SmallConf, Written(SmallConf, s, Plain, [z]))
            && MayClose(SmallConf, s) && !CloseSafe(s) && !Inv(SmallConf, Closed(SmallConf, s))
            && !RtoSafe(s) && !Inv(SmallConf, Requeued(s))
  {
    var c := SmallConf;
    var a, b := Seg(0, x, false, 0, 1), Seg(100, y, false, 0, 1);
    var s := Tx([a], [b], 200, 200, 0, 2720, 2, 0, 0, true);
    hide Inv, Written, Closed, Requeued, MayWrite, Reachable;
    RetransmittingReached(x, y);
    RunKeeps(c, 0, Retransmitting(x, y), Log(s, x + y, [a, b]));
    hide Faithful;
    MayAppend(c, s, a, z);
    hide Tail;
    WriteKeepsInv(c, s, Plain, [z]);
    CloseKeepsInv(c, s);
    RequeueKeepsInv(c, s);
  }

  lemma BackToUnsent(a: Seg, b: Seg, s: Tx)
    requires s == Tx([], [a, b], 200, 200, 0, 2720, 2, 0, 0, true) && a.End() > 0
    ensures AckReceived(s, 0, true) == Tx([a], [b], 200, 200, 0, 2720, 2, 0, 0, true)
  {
    assert [a, b][1..] == [b];
    assert [a][0..] == [a] && [a][..0] == [];
  }

  lemma MayAppend(c: Conf, s: Tx, a: Seg, z: byte)
    requires c == SmallConf && s.unsent == [a] && |a.data| == 100 && a.opts == 0 && a.pbufs == 1
    requires s.writable && s.sndBuf == 2720 && s.queueLen == 2 && s.oversize == 0
    ensures MayWrite(c, s, Plain, [z]) && Tail(s, Plain, 1) == 1
  {
    var how := Plain;
    assert Space(s, how, 1) == 1360;
    assert NewSegments(c, s, how, [z]) == [] by { assert [z][1..] == []; }
    var l' := a.(data := a.data + [z][..1], pbufs := 2);
    assert Extended(c, s, how, [z]) == [l'] by { assert s.unsent[..0] + [l'] + [] == [l']; }
    assert Pbufs([l']) == 2 && Pbufs([a]) == 1 by { assert [l'][1..] == [] && [a][1..] == []; }
  }

  // ---------------------------------------------------------------- what a receiver sees then

  /** A receiver at the start of the stream that gets one segment which fits its window. */
  lemma OneArrival(r: R.Rx, g: R.Segment)
    requires r.ooseq == [] && r.Open() && g.seqno == r.rcvNxt && 0 < g.TcpLen() <= r.rcvWnd
    ensures Rec.Run(r, [Rec.Arrive(g, true, false)]).data == g.data
    ensures Rec.Run(r, [Rec.Arrive(g, true, false)]).fins == if g.fin then 1 else 0
  {
    var e := Rec.Arrive(g, true, false);
    var o := R.Receive(r, g, true);
    assert R.TrimFront(r.rcvNxt, g) == g && o == R.Accept(r, g, []);
    DrainNothing(R.Advance(r, g.TcpLen()).(ooseq := []), g.data, g.fin);
    hide R.Receive;
    assert [e][..0] == [] && [e][0] == e;
    assert Rec.Run(r, []) == Rec.Log(r, [], 0);
    assert [] + o.data == o.data;
    assert Rec.Run(r, [e]).data == [] + Rec.Step(r, e).data;
  }

  lemma DrainNothing(s: R.Rx, data: seq<byte>, fin: bool)
    requires s.ooseq == []
    ensures R.Drain(s, data, fin) == R.Outcome(s, data, fin)
  {
  }

  /** The retransmitted segment goes out in front of the one behind it. */
  lemma Resent(t: Tx, a: Seg, b: Seg)
    requires t.unsent == [a] && t.unacked == [b] && a.seqno == 0 && b.seqno == 100 && 0 < |a.data| <= 101 && t.lastack == 0
    ensures Output(SmallConf, t, Now).1 == [a]
  {
    assert t.unsent[1..] == [];
    assert SendOne(t).unsent == [];
    assert Output(SmallConf, SendOne(t), Now).1 == [];
    assert [a] + [] == [a];
  }

  function Behind(x: seq<byte>, y: seq<byte>): Log {
    Log(Tx([Seg(0, x, false, 0, 1)], [Seg(100, y, false, 0, 1)], 200, 200, 0, 2720, 2, 0, 0, true),
        x + y, [Seg(0, x, false, 0, 1), Seg(100, y, false, 0, 1)])
  }

  lemma WriteSpoils(x: seq<byte>, y: seq<byte>, z: byte)
    requires |x| == 100 && |y| == 100
    ensures var t := Written(SmallConf, Behind(x, y).tx, Plain, [z]);
            t.unsent == [Seg(0, x + [z], false, 0, 2)] && t.unacked == [Seg(100, y, false, 0, 1)] && t.lastack == 0
  {
    var s, a := Behind(x, y).tx, Seg(0, x, false, 0, 1);
    MayAppend(SmallConf, s, a, z);
    assert Space(s, Plain, 1) == 1360;
    assert NewSegments(SmallConf, s, Plain, [z]) == [] by { assert [z][1..] == []; }
    assert [z][..1] == [z];
    assert Extended(SmallConf, s, Plain, [z]) == [Seg(0, x + [z], false, 0, 2)] by {
      assert s.unsent[..0] + [Seg(0, x + [z], false, 0, 2)] + [] == [Seg(0, x + [z], false, 0, 2)];
    }
  }

  /** What follows from the first failure: the byte z, written behind x and y, is sent as the one behind
      x. A receiver that gets that segment is given x and z, which is not what was written unless z
      happens to be the first byte of y. */
  lemma CorruptedData(x: seq<byte>, y: seq<byte>, z: byte) returns (l: Log)
    requires |x| == 100 && |y| == 100
    ensures Reachable(Any, SmallConf, 0, Retransmitting(x, y) + [Write(Plain, [z])] + [Send(Now)], l)
    ensures l.accepted == x + y + [z] && Seg(0, x + [z], false, 0, 2) in l.wire
    ensures var seen := Rec.Run(R.Rx(0, 2920, 2920, 0, [], R.Established, 2920, 536),
                                [Rec.Arrive(OnWire(Seg(0, x + [z], false, 0, 2)), true, false)]);
            seen.data == x + [z] && (z != y[0] ==> !(seen.data <= l.accepted))
  {
    hide Reachable, Written, Output, Retransmitting, Rec.Run;
    var k, g := Behind(x, y), Seg(0, x + [z], false, 0, 2);
    RetransmittingReached(x, y);
    LessCare(Tiling, Any, SmallConf, 0, Retransmitting(x, y), k);
    ReachOn(Any, SmallConf, 0, Retransmitting(x, y), k, Write(Plain, [z]));
    var m := Step(SmallConf, k, Write(Plain, [z]));
    WriteSpoils(x, y, z);
    ReachOn(Any, SmallConf, 0, Retransmitting(x, y) + [Write(Plain, [z])], m, Send(Now));
    Resent(m.tx, g, Seg(100, y, false, 0, 1));
    l := Step(SmallConf, m, Send(Now));
    assert l.wire == m.wire + [g];
    OneArrival(R.Rx(0, 2920, 2920, 0, [], R.Established, 2920, 536), OnWire(g));
    assert (x + [z])[100] == z && l.accepted[100] == y[0];
  }

  lemma CloseSpoils(x: seq<byte>, y: seq<byte>)
    requires |x| == 100 && |y| == 100
    ensures var t := Closed(SmallConf, Behind(x, y).tx);
            t.unsent == [Seg(0, x, true, 0, 1)] && t.unacked == [Seg(100, y, false, 0, 1)] && t.lastack == 0
  {
  }

  /** What follows from the second: the FIN is sent behind x. A receiver that gets that segment is told
      that x is all, although y was written too. */
  lemma CorruptedEnd(x: seq<byte>, y: seq<byte>) returns (l: Log)
    requires |x| == 100 && |y| == 100
    ensures Reachable(Any, SmallConf, 0, Retransmitting(x, y) + [Close] + [Send(Now)], l)
    ensures l.accepted == x + y && Seg(0, x, true, 0, 1) in l.wire
    ensures var seen := Rec.Run(R.Rx(0, 2920, 2920, 0, [], R.Established, 2920, 536),
                                [Rec.Arrive(OnWire(Seg(0, x, true, 0, 1)), true, false)]);
            seen.data == x && seen.fins == 1 && seen.data != l.accepted
  {
    hide Reachable, Closed, Output, Retransmitting, Rec.Run;
    var k, g := Behind(x, y), Seg(0, x, true, 0, 1);
    RetransmittingReached(x, y);
    LessCare(Tiling, Any, SmallConf, 0, Retransmitting(x, y), k);
    ReachOn(Any, SmallConf, 0, Retransmitting(x, y), k, Close);
    var m := Step(SmallConf, k, Close);
    CloseSpoils(x, y);
    ReachOn(Any, SmallConf, 0, Retransmitting(x, y) + [Close], m, Send(Now));
    Resent(m.tx, g, Seg(100, y, false, 0, 1));
    l := Step(SmallConf, m, Send(Now));
    assert l.wire == m.wire + [g];
    OneArrival(R.Rx(0, 2920, 2920, 0, [], R.Established, 2920, 536), OnWire(g));
  }
}
