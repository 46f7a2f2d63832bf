/** A run of the receive code on 32-bit fields that loses data. */
module TcpInLimit {
  import opened Common
  import opened SeqNum
  import opened TcpIn
  import opened TcpInExact
  import R = Reassembly
  import Runs = ReceiveRuns

  /** A receiver whose window of 100 bytes reaches over the end of the 2^32 sequence numbers, and three
      segments of 5 bytes, the first of which comes last; then the application reads, and the byte
      after the window arrives. */
  const ORIGIN := 0xffff_ffec

  function Straddling(st: seq<byte>): seq<Runs.Event>
    requires |st| == 101
  {
    [Runs.Arrive(R.Segment(ORIGIN + 5, st[5..10], false), true, false),
     Runs.Arrive(R.Segment(ORIGIN + 10, st[10..15], false), true, false),
     Runs.Arrive(R.Segment(ORIGIN, st[..5], false), true, false),
     Runs.Recved(15),
     Runs.Arrive(R.Segment(ORIGIN + 100, st[100..], false), true, false)]
  }

  const Straddler := Rcv(0xffff_ffec, 100, 100, 0xffff_ffec, [], R.Established, 100, 536)

  lemma Stored(a: TcpSeg)
    requires a.seqno == 0xffff_fff1 && a.len == |a.p| == 5 && !a.fin
    ensures Step32(Straddler, Arrive(a, true, false)) == Out(Straddler.(ooseq := [a]), [], false)
  {
    assert TrimFront32(0xffff_ffec, a) == a;
    hide InOrder32;
  }

  /** The second one fits the window, but gets the length up to the window's edge. */
  lemma Stretched(a: TcpSeg, b: TcpSeg)
    requires a.seqno == 0xffff_fff1 && a.len == |a.p| == 5 && !a.fin
    requires b.seqno == 0xffff_fff6 && b.len == |b.p| == 5 && !b.fin
    ensures Step32(Straddler.(ooseq := [a]), Arrive(b, true, false))
            == Out(Straddler.(ooseq := [a, b.(len := 90)]), [], false)
  {
    assert TrimFront32(0xffff_ffec, b) == b;
    assert FitEdge32(b, 0xffff_ffec, 100) == b.(len := 90);
    assert a.TrimTail(b.seqno) == a;
    assert [a][..0] + [a, b.(len := 90)] == [a, b.(len := 90)];
    assert Walk32([a], 0, b, true, 0xffff_ffec, 100) == [a, b.(len := 90)];
    hide InOrder32, Walk32;
  }

  lemma InSequence(s: Rcv, c: TcpSeg, q: seq<TcpSeg>)
    requires c.seqno == s.rcvNxt && c.TcpLen() > 0 && s.Open() && FitInOrder32(s, c) == (c, q)
    requires TrimFront32(s.rcvNxt, c) == c && Between(c.seqno, s.rcvNxt, Wrap(s.rcvNxt + s.rcvWnd - 1))
    ensures Receive32(s, c, true) == Accept32(s, c, q)
  {
    hide FitInOrder32, TrimFront32, Accept32, Between, Wrap;
  }

  /** When it is drained rcv_nxt moves over all of the window. */
  lemma Skipped(a: TcpSeg, b: TcpSeg, c: TcpSeg)
    requires a.seqno == 0xffff_fff1 && a.len == |a.p| == 5 && !a.fin
    requires b.seqno == 0xffff_fff6 && b.len == 90 && !b.fin
    requires c.seqno == 0xffff_ffec && c.len == |c.p| == 5 && !c.fin
    ensures var o := Step32(Straddler.(ooseq := [a, b]), Arrive(c, true, false));
            && o.data == c.p + a.p + b.p && !o.gotFin && o.pcb.rcvNxt == 80 && o.pcb.rcvWnd == 0
            && o.pcb.ooseq == [] && o.pcb.state == R.Established && o.pcb.maxWnd == 100
  {
    hide FitInOrder32, TrimFront32, Receive32, Between, UpdateAnnWnd32, Drain32;
    var s := Straddler.(ooseq := [a, b]);
    FitsBefore(s, c, a, b);
    InSequence(s, c, [a, b]);
    var t := UpdateSame(s.(rcvNxt := 0xffff_fff1, rcvWnd := 95));
    DrainTwice(t, a, b, c.p);
  }

  lemma FitsBefore(s: Rcv, c: TcpSeg, a: TcpSeg, b: TcpSeg)
    requires s == Straddler.(ooseq := [a, b]) && a.seqno == 0xffff_fff1 && a.len == 5
    requires c.seqno == 0xffff_ffec && c.len == |c.p| == 5 && !c.fin
    ensures TrimFront32(s.rcvNxt, c) == c && FitInOrder32(s, c) == (c, [a, b])
    ensures Between(c.seqno, s.rcvNxt, Wrap(s.rcvNxt + s.rcvWnd - 1))
  {
  }

  lemma DrainTwice(t: Rcv, a: TcpSeg, b: TcpSeg, data: seq<byte>)
    requires t.ooseq == [a, b] && t.rcvNxt == a.seqno == 0xffff_fff1 && t.rcvWnd == 95 && t.state == R.Established
    requires a.len == 5 && !a.fin && b.seqno == 0xffff_fff6 && b.len == 90 && !b.fin
    ensures var o := Drain32(t, data, false);
            && o.data == data + a.p + b.p && !o.gotFin && o.pcb.rcvNxt == 80 && o.pcb.rcvWnd == 0
            && o.pcb.ooseq == [] && o.pcb.state == t.state && o.pcb.maxWnd == t.maxWnd
  {
    hide UpdateAnnWnd32;
    var t1 := DrainStep32(t);
    var u1 := UpdateSame(t.(rcvNxt := 0xffff_fff6, rcvWnd := 90));
    var t2 := DrainStep32(t1);
    var u2 := UpdateSame(t1.(rcvNxt := 80, rcvWnd := 0));
    assert Drain32(t2, data + a.p + b.p, false) == Out(t2, data + a.p + b.p, false);
    assert Drain32(t1, data + a.p, false) == Out(t2, data + a.p + b.p, false);
  }

  lemma UpdateSame(s: Rcv) returns (t: Rcv)
    ensures t == UpdateAnnWnd32(s) && t == s.(annWnd := t.annWnd)
  {
    t := UpdateAnnWnd32(s);
  }

  /** A byte in sequence is taken. */
  lemma Taken(s: Rcv, d: TcpSeg)
    requires s.rcvNxt == d.seqno == 80 && s.rcvWnd == 15 && s.ooseq == [] && s.state == R.Established && d.len == |d.p| == 1 && !d.fin
    ensures Step32(s, Arrive(d, true, false)).data == d.p && !Step32(s, Arrive(d, true, false)).gotFin
  {
    assert TrimFront32(80, d) == d && FitInOrder32(s, d) == (d, []) && Between(80, 80, Wrap(80 + 15 - 1));
    InSequence(s, d, []);
    hide FitInOrder32, TrimFront32, Receive32, Between, UpdateAnnWnd32;
    var t := UpdateSame(s.(rcvNxt := 81, rcvWnd := 14));
    assert Drain32(t, d.p, false) == Out(t, d.p, false);
  }

  /** Nothing in that run is out of the ordinary: all segments are the peer's, fit the window and are
      near rcv_nxt. But the application is given 15 bytes and then the last one: 85 bytes are lost. */
  lemma StraddleLosesData(st: seq<byte>)
    requires |st| == 101
    ensures Runs.FromPeer(R.Peer(ORIGIN, st), Straddling(st))
    ensures var l := Run32(Straddler, EventImages(Straddling(st)));
            l.data == st[..15] + st[100..] && (st[15] != st[100] ==> !(l.data <= st))
  {
    StraddlingImages(st);
    hide Step32, EventImages, Straddling, Run32;
    var a, b, c := TcpSeg(0xffff_fff1, 5, st[5..10], false), TcpSeg(0xffff_fff6, 5, st[10..15], false), TcpSeg(0xffff_ffec, 5, st[..5], false);
    var d := TcpSeg(80, 1, st[100..], false);
    var l := Delivered(a, b, c);
    assert c.p + a.p + b.p == st[..15];
    var es := [] + [Arrive(a, true, false)] + [Arrive(b, true, false)] + [Arrive(c, true, false)] + [Recved(15)];
    Taken(l.pcb, d);
    RunOn(Straddler, es, Arrive(d, true, false));
    assert (st[..15] + st[100..])[15] == st[100];
  }

  /** The run up to the last segment. */
  lemma Delivered(a: TcpSeg, b: TcpSeg, c: TcpSeg) returns (l: Log)
    requires a.seqno == 0xffff_fff1 && a.len == |a.p| == 5 && !a.fin
    requires b.seqno == 0xffff_fff6 && b.len == |b.p| == 5 && !b.fin
    requires c.seqno == 0xffff_ffec && c.len == |c.p| == 5 && !c.fin
    ensures l == Run32(Straddler, [] + [Arrive(a, true, false)] + [Arrive(b, true, false)] + [Arrive(c, true, false)] + [Recved(15)])
    ensures l.data == c.p + a.p + b.p
    ensures l.pcb.rcvNxt == 80 && l.pcb.rcvWnd == 15 && l.pcb.ooseq == [] && l.pcb.state == R.Established
  {
    hide Step32, Run32;
    var l2 := TwoStored(a, b);
    var e2 := [] + [Arrive(a, true, false)] + [Arrive(b, true, false)];
    Skipped(a, b.(len := 90), c);
    RunOn(Straddler, e2, Arrive(c, true, false));
    var l3 := Run32(Straddler, e2 + [Arrive(c, true, false)]);
    ReadAll(l3.pcb);
    RunOn(Straddler, e2 + [Arrive(c, true, false)], Recved(15));
    l := Run32(Straddler, e2 + [Arrive(c, true, false)] + [Recved(15)]);
    assert [] + (c.p + a.p + b.p) == c.p + a.p + b.p && (c.p + a.p + b.p) + [] == c.p + a.p + b.p;
  }

  lemma RunOn(s: Rcv, es: seq<Event>, e: Event)
    ensures var l, o := Run32(s, es), Step32(Run32(s, es).pcb, e);
            Run32(s, es + [e]) == Log(o.pcb, l.data + o.data, l.fins + if o.gotFin then 1 else 0)
  {
    assert (es + [e])[..|es|] == es;
    hide Step32;
  }

  lemma TwoStored(a: TcpSeg, b: TcpSeg) returns (l: Log)
    requires a.seqno == 0xffff_fff1 && a.len == |a.p| == 5 && !a.fin
    requires b.seqno == 0xffff_fff6 && b.len == |b.p| == 5 && !b.fin
    ensures l == Run32(Straddler, [] + [Arrive(a, true, false)] + [Arrive(b, true, false)])
    ensures l == Log(Straddler.(ooseq := [a, b.(len := 90)]), [], 0)
  {
    assert Run32(Straddler, []) == Log(Straddler, [], 0);
    hide Step32, Run32;
    Stored(a);
    RunOn(Straddler, [], Arrive(a, true, false));
    Stretched(a, b);
    RunOn(Straddler, [] + [Arrive(a, true, false)], Arrive(b, true, false));
    l := Run32(Straddler, [] + [Arrive(a, true, false)] + [Arrive(b, true, false)]);
  }

  lemma ReadAll(s: Rcv)
    requires s.rcvWnd == 0 && s.maxWnd == 100
    ensures var o := Step32(s, Recved(15));
            && o.data == [] && !o.gotFin && o.pcb.rcvWnd == 15 && o.pcb.rcvNxt == s.rcvNxt && o.pcb.ooseq == s.ooseq && o.pcb.state == s.state
  {
    var t := UpdateSame(s.(rcvWnd := 15));
    hide UpdateAnnWnd32;
  }

  lemma StraddlingImages(st: seq<byte>)
    requires |st| == 101
    ensures Runs.FromPeer(R.Peer(ORIGIN, st), Straddling(st))
    ensures EventImages(Straddling(st)) ==
      [] + [Arrive(TcpSeg(0xffff_fff1, 5, st[5..10], false), true, false)]
      + [Arrive(TcpSeg(0xffff_fff6, 5, st[10..15], false), true, false)]
      + [Arrive(TcpSeg(0xffff_ffec, 5, st[..5], false), true, false)] + [Recved(15)]
      + [Arrive(TcpSeg(80, 1, st[100..], false), true, false)]
  {
  }
}
