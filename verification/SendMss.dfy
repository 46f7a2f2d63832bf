/** No segment outgrows the local MSS, over every run of the send path. */
module SendMss {
  import opened Common
  import opened SeqNum
  import opened SendQueue
  import opened SendLine
  import opened SendInvariant
  import opened SendRuns

  predicate Small(g: Seg, m: nat) { |g.data| + g.opts <= m }

  /** Every queued segment fits the MSS, and so does the last unsent one with its spare room filled. */
  ghost predicate Fits(s: Tx, m: nat) {
    && (forall g :: g in s.unacked || g in s.unsent ==> Small(g, m))
    && (s.unsent != [] ==> |Last(s.unsent).data| + Last(s.unsent).opts + s.oversize <= m)
  }

  /** There is no spare room without a segment. */
  predicate RoomInSegment(s: Tx) { s.unsent == [] ==> s.oversize == 0 }

  /** The last unsent segment, with what is left of its spare room or with that of the pbuf chained
      to it. */
  lemma GrownFits(c: Conf, s: Tx, h: How, arg: seq<byte>)
    requires c.align > 0 && s.unsent != [] && |Last(s.unsent).data| + Last(s.unsent).opts + s.oversize <= h.mss
    ensures |Grown(s, h, arg).data| + Grown(s, h, arg).opts + OversizeTail(c, s, h, |arg|) <= h.mss
    ensures Tail(s, h, |arg|) < |arg| && !(Concat(s, h, |arg|) > 0 && h.copy) ==> OversizeTail(c, s, h, |arg|) == 0
  {
    hide Extra;
    var room := h.mss - (|Last(s.unsent).data| + Last(s.unsent).opts);
    Low16Small(room);
    Low16Small(room - Fill(s, |arg|));
  }

  lemma NewFit(c: Conf, s: Tx, h: How, arg: seq<byte>)
    requires h.mss > c.optlen
    ensures forall g :: g in NewSegments(c, s, h, arg) ==> Small(g, h.mss) && g.opts == c.optlen
  {
    hide Tail;
    var t := Tail(s, h, |arg|);
    forall g | g in NewSegments(c, s, h, arg) ensures Small(g, h.mss) && g.opts == c.optlen {
      ChunksEach(arg[t..], s.lbb + t, h.mss - c.optlen, c.optlen, if h.copy then 1 else 2, g);
    }
  }

  /** What is last after tcp_write(), and the spare room then. */
  lemma LastFits(c: Conf, s: Tx, h: How, arg: seq<byte>)
    requires h.mss > c.optlen && c.align > 0 && RoomInSegment(s)
    requires s.unsent != [] ==> |Last(s.unsent).data| + Last(s.unsent).opts + s.oversize <= h.mss
    ensures var q := Extended(c, s, h, arg);
            q != [] ==> |Last(q).data| + Last(q).opts + OversizeAfter(c, s, h, arg) <= h.mss
  {
    hide Extra, Chunks, Tail, Extended, NewSegments, OversizeTail;
    WriteShape(c, s, h, arg);
    WriteNewSegments(c, s, h, arg);
    NewFit(c, s, h, arg);
    var r, q := Extended(c, s, h, arg), NewSegments(c, s, h, arg);
    if s.unsent != [] { GrownFits(c, s, h, arg); }
    if q != [] {
      assert Last(q) in q && Last(r) == Last(q);
      assert !h.copy ==> OversizeTail(c, s, h, |arg|) == 0 by { if s.unsent == [] { NoSpare(c, s, h, |arg|); } }
    }
  }

  lemma NoSpare(c: Conf, s: Tx, h: How, len: nat)
    requires c.align > 0 && s.unsent == []
    ensures OversizeTail(c, s, h, len) == 0
  {
  }

  lemma WriteRoom(c: Conf, s: Tx, h: How, arg: seq<byte>)
    requires h.mss > c.optlen && c.align > 0
    ensures RoomInSegment(Written(c, s, h, arg))
  {
    hide Extra, Chunks, Tail, Extended, NewSegments, OversizeTail;
    WriteShape(c, s, h, arg);
    if s.unsent == [] { NoSpare(c, s, h, |arg|); }
  }

  /** tcp_write() keeps to the MSS, which may have grown since. */
  lemma WriteFits(c: Conf, s: Tx, h: How, arg: seq<byte>, m: nat)
    requires Fits(s, m) && m <= h.mss && h.mss > c.optlen && c.align > 0 && RoomInSegment(s)
    ensures Fits(Written(c, s, h, arg), h.mss) && RoomInSegment(Written(c, s, h, arg))
  {
    hide Extra, Chunks, Tail, Extended, NewSegments, OversizeTail, OversizeAfter;
    WriteShape(c, s, h, arg);
    NewFit(c, s, h, arg);
    LastFits(c, s, h, arg);
    WriteRoom(c, s, h, arg);
    hide RoomInSegment;
    var r, q := Written(c, s, h, arg), NewSegments(c, s, h, arg);
    if s.unsent != [] { GrownFits(c, s, h, arg); }
    hide Grown;
    forall g | g in r.unacked || g in r.unsent ensures Small(g, h.mss) {
      if g !in s.unacked && g !in q {
        assert s.unsent != [] && (g in s.unsent[..|s.unsent| - 1] || g == Grown(s, h, arg));
        assert g != Grown(s, h, arg) ==> g in s.unsent;
      }
    }
  }

  lemma CloseFits(c: Conf, s: Tx, m: nat)
    requires Fits(s, m) && c.optlen <= m
    ensures Fits(Closed(c, s), m) && RoomInSegment(Closed(c, s))
  {
    if s.unsent != [] { assert Last(s.unsent) in s.unsent; }
  }

  lemma SendOneFits(s: Tx, m: nat)
    requires Fits(s, m) && s.unsent != []
    ensures Fits(SendOne(s), m) && Small(s.unsent[0], m)
  {
    var g, r := s.unsent[0], SendOne(s);
    assert g in s.unsent;
    forall h | h in r.unacked || h in r.unsent ensures Small(h, m) { InsertMembers(s.unacked, g, h); }
  }

  lemma {:induction false} OutputFits(c: Conf, s: Tx, p: Pace, m: nat)
    requires Fits(s, m)
    ensures var (t, sent) := Output(c, s, p); Fits(t, m) && RoomInSegment(t) && forall g :: g in sent ==> Small(g, m)
    decreases |s.unsent|
  {
    hide Fits, Small, SendOne, Sendable;
    if Sendable(c, s, p) {
      SendOneShorter(c, s, p);
      SendOneFits(s, m);
      OutputFits(c, SendOne(s), p, m);
    } else {
      NothingLeft(s, m);
    }
  }

  lemma SendOneShorter(c: Conf, s: Tx, p: Pace)
    requires Sendable(c, s, p)
    ensures s.unsent != [] && |SendOne(s).unsent| < |s.unsent|
  {
  }

  lemma NothingLeft(s: Tx, m: nat)
    requires Fits(s, m)
    ensures s.unsent == [] ==> Fits(s.(oversize := 0), m)
  {
  }

  lemma AckFits(s: Tx, ackno: int, third: bool, m: nat)
    requires Fits(s, m) && RoomInSegment(s)
    ensures Fits(AckReceived(s, ackno, third), m) && RoomInSegment(AckReceived(s, ackno, third))
  {
    hide Clens, InsertSorted, Acked, Low16, AckTail;
    RexmitFits(s, m);
    hide Rexmit;
    var r := AckHead(s, ackno, third);
    assert Fits(r, m) && RoomInSegment(r);
    hide AckHead;
    TailFits(r, ackno, m);
  }

  lemma TailFits(s: Tx, ackno: int, m: nat)
    requires Fits(s, m) && RoomInSegment(s)
    ensures Fits(AckTail(s, ackno), m) && RoomInSegment(AckTail(s, ackno))
  {
    hide Clens, Acked;
  }

  lemma RexmitFits(s: Tx, m: nat)
    requires Fits(s, m) && RoomInSegment(s)
    ensures Fits(Rexmit(s), m) && RoomInSegment(Rexmit(s))
  {
    if s.unacked != [] {
      var g := s.unacked[0];
      var q := InsertSorted(s.unsent, g);
      assert g in s.unacked;
      forall h | h in s.unacked[1..] || h in q ensures Small(h, m) { InsertMembers(s.unsent, g, h); }
      LastInserted(s.unsent, g);
    }
  }

  lemma {:induction false} LastInserted(q: seq<Seg>, g: Seg)
    ensures InsertSorted(q, g) != [] && (Last(InsertSorted(q, g)) == g || (q != [] && Last(InsertSorted(q, g)) == Last(q)))
    decreases |q|
  {
    if q != [] && q[0].seqno < g.seqno { LastInserted(q[1..], g); }
  }

  /** The local MSS of the calls of tcp_write() does not shrink, and ends at m: it is the smaller of
      mss, which stays, and half of the largest window seen, which grows. */
  ghost predicate MssGrows(c: Conf, es: seq<Event>, m: nat) {
    && c.optlen <= m
    && (forall i :: 0 <= i < |es| && es[i].Write? ==> es[i].how.mss <= m)
    && (forall i, j :: 0 <= i < j < |es| && es[i].Write? && es[j].Write? ==> es[i].how.mss <= es[j].how.mss)
  }

  lemma StepFits(c: Conf, l: Log, e: Event, m: nat)
    requires Allowed(Any, c, l.tx, e) && Fits(l.tx, m) && RoomInSegment(l.tx) && c.optlen <= m && (e.Write? ==> m <= e.how.mss)
    requires forall g :: g in l.wire ==> Small(g, m)
    ensures var n, r := if e.Write? then e.how.mss as nat else m, Step(c, l, e);
            Fits(r.tx, n) && RoomInSegment(r.tx) && forall g :: g in r.wire ==> Small(g, n)
  {
    hide Fits, RoomInSegment, Written, Output, AckReceived, Closed;
    match e
    case Write(how, arg) => WriteFits(c, l.tx, how, arg, m);
    case Close => CloseFits(c, l.tx, m);
    case Send(pace) => OutputFits(c, l.tx, pace, m);
    case AckIn(ackno, third) => AckFits(l.tx, ackno, third, m);
    case Timeout(pace) =>
      RequeuedFits(c, l.tx, m);
      OutputFits(c, Requeued(l.tx), pace, m);
  }

  lemma RequeuedFits(c: Conf, s: Tx, m: nat)
    requires RoomInSegment(s) && Fits(s, m)
    ensures Fits(Requeued(s), m)
  {
    if s.unacked != [] { assert Last(s.unacked) in s.unacked; }
  }

  /** Over every run, whatever is added to retransmitted segments: all segments queued or ever sent fit
      the MSS of the moment, and the spare room of the last unsent one leads no later tcp_write() beyond
      it. */
  lemma {:induction false} RunFits(c: Conf, origin: int, es: seq<Event>, l: Log, m: nat)
    requires Reachable(Any, c, origin, es, l) && MssGrows(c, es, m)
    ensures Fits(l.tx, m) && RoomInSegment(l.tx) && forall g :: g in l.wire ==> Small(g, m)
    decreases |es|
  {
    if es != [] {
      hide Fits, RoomInSegment, Small, Allowed, Step;
      var e := es[|es| - 1];
      var k := LastStep(Any, c, origin, es, l);
      if e.Write? { OptionsFit(c, k.tx, e); }
      var n := Earlier(c, es, m);
      RunFits(c, origin, es[..|es| - 1], k, n);
      StepFits(c, k, e, n);
      FitsMore(l, if e.Write? then e.how.mss else n, m);
    }
  }

  lemma Earlier(c: Conf, es: seq<Event>, m: nat) returns (n: nat)
    requires es != [] && MssGrows(c, es, m) && (es[|es| - 1].Write? ==> c.optlen <= es[|es| - 1].how.mss)
    ensures MssGrows(c, es[..|es| - 1], n) && n <= m && (es[|es| - 1].Write? ==> n <= es[|es| - 1].how.mss)
  {
    n := c.optlen;
    var i := 0;
    while i < |es| - 1
      invariant 0 <= i <= |es| - 1 && c.optlen <= n <= m
      invariant forall j :: 0 <= j < i && es[j].Write? ==> es[j].how.mss <= n
      invariant n == c.optlen || exists j :: 0 <= j < i && es[j].Write? && es[j].how.mss == n
    {
      if es[i].Write? && es[i].how.mss > n { n := es[i].how.mss; }
      i := i + 1;
    }
  }

  lemma OptionsFit(c: Conf, s: Tx, e: Event)
    requires Allowed(Any, c, s, e) && e.Write?
    ensures c.optlen < e.how.mss
  {
  }

  lemma FitsMore(l: Log, n: nat, m: nat)
    requires Fits(l.tx, n) && n <= m && forall g :: g in l.wire ==> Small(g, n)
    ensures Fits(l.tx, m) && forall g :: g in l.wire ==> Small(g, m)
  {
  }
}
