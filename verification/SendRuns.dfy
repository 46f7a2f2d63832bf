/** Whole runs of the send path, and of a sender and a receiver joined by a network that may
    lose, repeat and reorder segments. */
module SendRuns {
  import opened SeqNum
  import opened SendQueue
  import opened SendLine
  import opened SendInvariant
  import R = Reassembly
  import Rec = ReceiveRuns

  /** What happens to an established connection on the sending side. Calls that fail for lack of
      memory change nothing and are not events. */
  datatype Event =
    | Write(how: How, arg: seq<byte>)
    | Close
    | Send(pace: Pace)                  // tcp_output()
    | AckIn(ackno: int, third: bool)    // ACK processing in tcp_receive()
    | Timeout(pace: Pace)               // tcp_rexmit_rto()

  /** Everything tcp_write() has accepted, and everything put on the wire. */
  datatype Log = Log(tx: Tx, accepted: seq<byte>, wire: seq<Seg>)

  function Step(c: Conf, l: Log, e: Event): Log
    requires Allowed(Any, c, l.tx, e)
  {
    match e
    case Write(how, arg) => l.(tx := Written(c, l.tx, how, arg), accepted := l.accepted + arg)
    case Close => l.(tx := Closed(c, l.tx))
    case Send(pace) =>
      var (t, sent) := Output(c, l.tx, pace);
      l.(tx := t, wire := l.wire + sent)
    case AckIn(ackno, third) => l.(tx := AckReceived(l.tx, ackno, third))
    case Timeout(pace) =>
      if l.tx.unacked == [] then l
      else
        var (t, sent) := Output(c, Requeued(l.tx), pace);
        l.(tx := t, wire := l.wire + sent)
  }

  /** What a run keeps clear of: nothing; data or a FIN added to a retransmitted segment, which
      spoils contents; or also a timeout during a fast retransmission, which spoils the tiling. */
  datatype Care = Any | Contents | Tiling

  /** The event happens: a call that takes data, or closes, succeeds. */
  ghost predicate Allowed(care: Care, c: Conf, s: Tx, e: Event) {
    match e
    case Write(how, arg) =>
      && s.writable && how.mss > c.optlen && c.align > 0
      && (care != Any ==> WriteSafe(s, how, |arg|))
      && (care == Tiling ==> MayWrite(c, s, how, arg))
    case Close => s.writable && (care != Any ==> CloseSafe(s)) && (care == Tiling ==> MayClose(c, s))
    case Timeout(_) => care == Tiling ==> RtoSafe(s)
    case _ => true
  }

  /** A connection whose first byte will have position `origin`. */
  function Fresh(c: Conf, origin: int): Log {
    Log(Tx([], [], origin, origin, origin, c.sndBuf, 0, 0, 0, true), [], [])
  }

  /** `l` is reached from a fresh connection by allowed events. */
  ghost predicate Reachable(care: Care, c: Conf, origin: int, es: seq<Event>, l: Log)
    decreases |es|
  {
    if es == [] then l == Fresh(c, origin)
    else exists k: Log {:trigger Reachable(care, c, origin, es[..|es| - 1], k)} ::
      && Reachable(care, c, origin, es[..|es| - 1], k)
      && Allowed(care, c, k.tx, es[|es| - 1]) && l == Step(c, k, es[|es| - 1])
  }

  /** The segment as the receiver sees it. */
  function OnWire(g: Seg): R.Segment { R.Segment(g.seqno, g.data, g.fin) }

  ghost predicate Held(s: Tx, g: Seg) { g in s.unacked || g in s.unsent }

  /** Everything queued or sent carries the accepted bytes at their positions, and no FIN before the
      connection is closed. */
  ghost predicate Faithful(origin: int, l: Log) {
    var peer := R.Peer(origin, l.accepted);
    && l.tx.lbb + l.tx.extra == peer.End() + (if l.tx.writable then 0 else 1)
    && (l.tx.writable ==> l.tx.extra == 0)
    && (forall g :: Held(l.tx, g) || g in l.wire ==> peer.Sent(OnWire(g)) && (l.tx.writable ==> !g.fin))
  }

  /** A segment without FIN still fits when the stream grows. */
  lemma SentGrows(origin: int, accepted: seq<byte>, arg: seq<byte>, g: Seg)
    requires R.Peer(origin, accepted).Sent(OnWire(g)) && !g.fin
    ensures R.Peer(origin, accepted + arg).Sent(OnWire(g))
  {
    var x := g.seqno - origin;
    assert (accepted + arg)[x..x + |g.data|] == accepted[x..x + |g.data|];
  }

  /** The last unsent segment, grown by the front of the new data. */
  lemma SentGrown(origin: int, accepted: seq<byte>, arg: seq<byte>, l: Seg, l': Seg, t: nat)
    requires R.Peer(origin, accepted).Sent(OnWire(l)) && !l.fin && l.End() == origin + |accepted| && t <= |arg|
    requires l'.seqno == l.seqno && !l'.fin && l'.data == l.data + arg[..t]
    ensures R.Peer(origin, accepted + arg).Sent(OnWire(l'))
  {
    var x := l.seqno - origin;
    assert (accepted + arg)[x..|accepted| + t] == accepted[x..] + arg[..t];
  }

  lemma SentChunk(origin: int, accepted: seq<byte>, arg: seq<byte>, t: nat, g: Seg)
    requires t <= |arg| && !g.fin
    requires var at := origin + |accepted| + t;
             && at <= g.seqno && g.seqno - at + |g.data| <= |arg| - t && g.data == arg[t..][g.seqno - at..][..|g.data|]
    ensures R.Peer(origin, accepted + arg).Sent(OnWire(g))
  {
    var x := g.seqno - origin;
    assert (accepted + arg)[x..x + |g.data|] == g.data;
  }

  /** The last unsent segment, grown by the front of the new data, if its end is not that of the
      accepted data: the new bytes are right exactly when they are those that belong there. */
  lemma SentGrownExact(origin: int, accepted: seq<byte>, arg: seq<byte>, l: Seg, l': Seg, t: nat)
    requires R.Peer(origin, accepted).Sent(OnWire(l)) && !l.fin && t <= |arg|
    requires l'.seqno == l.seqno && !l'.fin && l'.data == l.data + arg[..t]
    ensures R.Peer(origin, accepted + arg).Sent(OnWire(l')) <==> Fitting(origin, accepted, arg, l, t)
  {
    var all, x, at := accepted + arg, l.seqno - origin, l.End() - origin;
    assert all[x..at] == l.data;
    if at + t <= |all| {
      assert all[x..at + t] == all[x..at] + all[at..at + t];
      SameTail(l.data, arg[..t], all[at..at + t]);
    }
  }

  lemma SameTail(a: seq<byte>, b: seq<byte>, c: seq<byte>)
    ensures a + b == a + c <==> b == c
  {
    assert (a + b)[|a|..] == b && (a + c)[|a|..] == c;
  }

  /** The first t new bytes are those that follow segment l in the stream. */
  predicate Fitting(origin: int, accepted: seq<byte>, arg: seq<byte>, l: Seg, t: nat) {
    var all, at := accepted + arg, l.End() - origin;
    && t <= |arg| && 0 <= at && at + t <= |all| && all[at..at + t] == arg[..t]
  }

  /** The bytes that tcp_write() adds to the last unsent segment are those that belong there. */
  ghost predicate Harmless(origin: int, l: Log, h: How, arg: seq<byte>) {
    var t := Tail(l.tx, h, |arg|);
    t > 0 ==> l.tx.unsent != [] && Fitting(origin, l.accepted, arg, Last(l.tx.unsent), t)
  }

  lemma NoTail(s: Tx, h: How, len: nat)
    requires s.unsent == []
    ensures Tail(s, h, len) == 0
  {
  }

  /** A tcp_write() keeps the contents right exactly when that is so. */
  lemma WriteFaithful(c: Conf, origin: int, l: Log, h: How, arg: seq<byte>)
    requires Faithful(origin, l) && Allowed(Any, c, l.tx, Write(h, arg))
    ensures Faithful(origin, Step(c, l, Write(h, arg))) <==> Harmless(origin, l, h, arg)
  {
    hide Chunks, Extended, Tail, NewSegments, OversizeAfter, Fitting, R.Peer.Sent;
    var s, t := l.tx, Tail(l.tx, h, |arg|);
    var r := Step(c, l, Write(h, arg));
    WriteShape(c, s, h, arg);
    if s.unsent == [] {
      NoTail(s, h, |arg|);
    } else {
      assert Held(s, Last(s.unsent));
      SentGrownExact(origin, l.accepted, arg, Last(s.unsent), Grown(s, h, arg), t);
      if t > 0 {
        assert Held(r.tx, Grown(s, h, arg));
        if !Fitting(origin, l.accepted, arg, Last(s.unsent), t) { return; }
      }
    }
    forall g | Held(r.tx, g) || g in r.wire ensures R.Peer(origin, r.accepted).Sent(OnWire(g)) && !g.fin {
      WriteHeld(c, origin, l, h, arg, g);
    }
  }

  /** The segments there are after a tcp_write(). */
  lemma WriteHeld(c: Conf, origin: int, l: Log, h: How, arg: seq<byte>, g: Seg)
    requires Faithful(origin, l) && Allowed(Any, c, l.tx, Write(h, arg))
    requires Held(Written(c, l.tx, h, arg), g) || g in l.wire
    ensures !g.fin
    ensures R.Peer(origin, l.accepted + arg).Sent(OnWire(g))
            || (l.tx.unsent != [] && Tail(l.tx, h, |arg|) > 0 && g == Grown(l.tx, h, arg))
  {
    hide Chunks, Extended, Tail, NewSegments, OversizeAfter, R.Peer.Sent;
    var s, t := l.tx, Tail(l.tx, h, |arg|);
    WriteShape(c, s, h, arg);
    if Held(s, g) || g in l.wire {
      SentGrows(origin, l.accepted, arg, g);
    } else if g in NewSegments(c, s, h, arg) {
      ChunksEach(arg[t..], s.lbb + t, h.mss - c.optlen, c.optlen, if h.copy then 1 else 2, g);
      SentChunk(origin, l.accepted, arg, t, g);
    } else {
      assert g == Grown(s, h, arg) && Held(s, Last(s.unsent));
    }
  }

  /** Adding data behind the last byte that was accepted is harmless. */
  lemma SafeHarmless(origin: int, l: Log, h: How, arg: seq<byte>)
    requires Faithful(origin, l) && l.tx.writable && WriteSafe(l.tx, h, |arg|)
    ensures Harmless(origin, l, h, arg)
  {
    hide Tail;
    var t := Tail(l.tx, h, |arg|);
    if l.tx.unsent == [] { NoTail(l.tx, h, |arg|); }
    assert (l.accepted + arg)[|l.accepted|..|l.accepted| + t] == arg[..t];
  }

  /** Whether a tcp_write() of so many bytes is safe for the stream, whatever they are, is what
      WriteSafe says: otherwise any data that differs from the accepted byte at that place spoils it. */
  lemma WriteExact(c: Conf, origin: int, l: Log, h: How, arg: seq<byte>)
    requires Faithful(origin, l) && Allowed(Any, c, l.tx, Write(h, arg))
    ensures WriteSafe(l.tx, h, |arg|) ==> Faithful(origin, Step(c, l, Write(h, arg)))
    ensures !WriteSafe(l.tx, h, |arg|) ==> l.tx.unsent != [] && arg != []
    ensures !WriteSafe(l.tx, h, |arg|) ==>
      var at := Last(l.tx.unsent).End() - origin;
      0 <= at < |l.accepted| && (arg[0] != l.accepted[at] ==> !Faithful(origin, Step(c, l, Write(h, arg))))
  {
    WriteFaithful(c, origin, l, h, arg);
    if WriteSafe(l.tx, h, |arg|) {
      SafeHarmless(origin, l, h, arg);
    } else {
      hide Tail;
      if l.tx.unsent == [] { NoTail(l.tx, h, |arg|); }
      var t, last := Tail(l.tx, h, |arg|), Last(l.tx.unsent);
      assert Held(l.tx, last);
      var at := last.End() - origin;
      if Fitting(origin, l.accepted, arg, last, t) {
        assert (l.accepted + arg)[at..at + t][0] == l.accepted[at];
      }
    }
  }

  /** Closing keeps the contents right exactly when the FIN does not go into a segment that ends
      below snd_lbb. */
  lemma CloseExact(c: Conf, origin: int, l: Log)
    requires Faithful(origin, l) && Allowed(Any, c, l.tx, Close)
    ensures Faithful(origin, Step(c, l, Close)) <==> CloseSafe(l.tx)
  {
    var s, r := l.tx, Step(c, l, Close);
    if s.unsent != [] && !Last(s.unsent).fin {
      var f := Last(s.unsent).(fin := true);
      assert Held(s, Last(s.unsent));
      assert r.tx.unsent[|s.unsent| - 1] == f && Held(r.tx, f);
      assert forall g :: g in s.unsent[..|s.unsent| - 1] ==> Held(s, g);
      assert forall g :: Held(r.tx, g) ==> Held(s, g) || g == f;
    } else {
      assert forall g :: Held(r.tx, g) ==> Held(s, g) || g == Seg(s.lbb, [], true, c.optlen, 1);
    }
  }

  // ---------------------------------------------------------------- what is held afterwards

  lemma SendOneHeld(s: Tx, h: Seg)
    requires s.unsent != [] && Held(SendOne(s), h)
    ensures Held(s, h)
  {
    InsertMembers(s.unacked, s.unsent[0], h);
  }

  /** Sending adds no segment, and sends only those there are. */
  lemma {:induction false} OutputHeld(c: Conf, s: Tx, p: Pace, h: Seg)
    requires var (t, sent) := Output(c, s, p); Held(t, h) || h in sent
    ensures Held(s, h)
    decreases |s.unsent|
  {
    if Sendable(c, s, p) {
      hide Sendable, SendOne, Held;
      var (t, sent) := Output(c, SendOne(s), p);
      SendOneShorter(s);
      if h == s.unsent[0] {
        HeadHeld(s);
      } else {
        OutputHeld(c, SendOne(s), p, h);
        SendOneHeld(s, h);
      }
    }
  }

  lemma SendOneShorter(s: Tx)
    requires s.unsent != []
    ensures |SendOne(s).unsent| < |s.unsent|
  {
  }

  lemma HeadHeld(s: Tx)
    requires s.unsent != []
    ensures Held(s, s.unsent[0])
  {
  }

  /** Nor does it touch the other fields. */
  lemma {:induction false} OutputSame(c: Conf, s: Tx, p: Pace)
    ensures var t := Output(c, s, p).0; t.lbb == s.lbb && t.extra == s.extra && t.writable == s.writable
    decreases |s.unsent|
  {
    if Sendable(c, s, p) {
      hide Sendable;
      OutputSame(c, SendOne(s), p);
    }
  }

  lemma SendFaithful(c: Conf, origin: int, l: Log, s: Tx, p: Pace)
    requires Faithful(origin, l) && forall g :: Held(s, g) ==> Held(l.tx, g)
    requires s.lbb == l.tx.lbb && s.extra == l.tx.extra && s.writable == l.tx.writable
    ensures var (t, sent) := Output(c, s, p); Faithful(origin, l.(tx := t, wire := l.wire + sent))
  {
    hide Output, R.Peer.Sent, Held;
    OutputSame(c, s, p);
    var (t, sent) := Output(c, s, p);
    forall g | Held(t, g) || g in sent ensures Held(l.tx, g) { OutputHeld(c, s, p, g); }
  }

  lemma RexmitHeld(s: Tx, h: Seg)
    requires Held(Rexmit(s), h)
    ensures Held(s, h)
  {
    if s.unacked != [] { InsertMembers(s.unsent, s.unacked[0], h); }
  }

  lemma AckHeld(s: Tx, ackno: int, third: bool, h: Seg)
    requires Held(AckReceived(s, ackno, third), h)
    ensures Held(s, h)
  {
    hide Rexmit, Acked, Clens, Low16;
    if third && h in Rexmit(s).unacked + Rexmit(s).unsent { RexmitHeld(s, h); }
  }

  lemma AckSame(s: Tx, ackno: int, third: bool)
    ensures var r := AckReceived(s, ackno, third); r.lbb == s.lbb && r.extra == s.extra && r.writable == s.writable
  {
    hide InsertSorted, Acked, Clens, Low16;
  }

  lemma AckFaithful(c: Conf, origin: int, l: Log, ackno: int, third: bool)
    requires Faithful(origin, l)
    ensures Faithful(origin, Step(c, l, AckIn(ackno, third)))
  {
    hide R.Peer.Sent, AckReceived, Held;
    AckSame(l.tx, ackno, third);
    forall g | Held(AckReceived(l.tx, ackno, third), g) ensures Held(l.tx, g) { AckHeld(l.tx, ackno, third, g); }
  }

  /** One event that adds nothing to a retransmitted segment keeps the contents right. */
  lemma StepFaithful(c: Conf, origin: int, l: Log, e: Event)
    requires Faithful(origin, l) && Allowed(Contents, c, l.tx, e)
    ensures Faithful(origin, Step(c, l, e))
  {
    hide Faithful, Written, Closed, Output, AckReceived, WriteSafe, CloseSafe;
    match e
    case Write(how, arg) => WriteExact(c, origin, l, how, arg);
    case Close => CloseExact(c, origin, l);
    case Send(pace) => SendFaithful(c, origin, l, l.tx, pace);
    case AckIn(ackno, third) => AckFaithful(c, origin, l, ackno, third);
    case Timeout(pace) =>
      if l.tx.unacked != [] { SendFaithful(c, origin, l, Requeued(l.tx), pace); }
  }

  /** One event that spoils nothing keeps the tiling. */
  lemma StepKeeps(c: Conf, l: Log, e: Event)
    requires Inv(c, l.tx) && Allowed(Tiling, c, l.tx, e)
    ensures Inv(c, Step(c, l, e).tx)
  {
    hide Inv, Written, Closed, Output, AckReceived, MayWrite, MayClose, WriteSafe, CloseSafe;
    match e
    case Write(how, arg) => WriteKeepsInv(c, l.tx, how, arg);
    case Close => CloseKeepsInv(c, l.tx);
    case Send(pace) => OutputInv(c, l.tx, pace);
    case AckIn(ackno, third) => AckInv(c, l.tx, ackno, third);
    case Timeout(pace) =>
      if l.tx.unacked != [] {
        RequeueKeepsInv(c, l.tx);
        OutputInv(c, Requeued(l.tx), pace);
      }
  }

  /** The last step of a run, and what comes before it. */
  lemma LastStep(care: Care, c: Conf, origin: int, es: seq<Event>, l: Log) returns (k: Log)
    requires es != [] && Reachable(care, c, origin, es, l)
    ensures Reachable(care, c, origin, es[..|es| - 1], k)
    ensures Allowed(care, c, k.tx, es[|es| - 1]) && l == Step(c, k, es[|es| - 1])
  {
    hide WriteSafe, CloseSafe, MayWrite, MayClose, RtoSafe;
    k :| Reachable(care, c, origin, es[..|es| - 1], k)
         && Allowed(care, c, k.tx, es[|es| - 1]) && l == Step(c, k, es[|es| - 1]);
  }

  /** A run that keeps clear of more is one that keeps clear of less. */
  lemma {:induction false} LessCare(care: Care, less: Care, c: Conf, origin: int, es: seq<Event>, l: Log)
    requires Reachable(care, c, origin, es, l) && (less == Any || (less == Contents && care == Tiling))
    ensures Reachable(less, c, origin, es, l)
    decreases |es|
  {
    hide Step, WriteSafe, CloseSafe, MayWrite, MayClose, RtoSafe;
    if es != [] {
      var k := LastStep(care, c, origin, es, l);
      LessCare(care, less, c, origin, es[..|es| - 1], k);
    }
  }

  /** Over every run, timeouts during a fast retransmission included, in which no data and no FIN is
      added to a retransmitted segment: every segment queued or ever sent carries exactly the bytes
      tcp_write() accepted for its positions, with the FIN only behind the last of them. */
  lemma {:induction false} RunFaithful(c: Conf, origin: int, es: seq<Event>, l: Log)
    requires Reachable(Contents, c, origin, es, l)
    ensures Faithful(origin, l)
    decreases |es|
  {
    if es != [] {
      hide Step, Allowed, Faithful;
      var k := LastStep(Contents, c, origin, es, l);
      RunFaithful(c, origin, es[..|es| - 1], k);
      StepFaithful(c, origin, k, es[|es| - 1]);
    }
  }

  /** Over every run without any of the three: the queues tile the sequence space and agree with the
      counters. */
  lemma {:induction false} RunKeeps(c: Conf, origin: int, es: seq<Event>, l: Log)
    requires c.Ok() && Reachable(Tiling, c, origin, es, l)
    ensures Inv(c, l.tx) && Faithful(origin, l)
    decreases |es|
  {
    LessCare(Tiling, Contents, c, origin, es, l);
    RunFaithful(c, origin, es, l);
    if es != [] {
      hide Step, Allowed, Faithful, Inv;
      var k := LastStep(Tiling, c, origin, es, l);
      RunKeeps(c, origin, es[..|es| - 1], k);
      StepKeeps(c, k, es[|es| - 1]);
    }
  }

  /** End to end. Whatever subset of the segments a sender puts on the wire arrives, in whatever
      order and however often, the bytes the receiving application has seen are a prefix of the
      bytes the sending application wrote, and all of them once it has been told of the FIN; unless
      data or a FIN was added to a retransmitted segment. */
  lemma EndToEnd(c: Conf, origin: int, es: seq<Event>, l: Log, r: R.Rx, arrivals: seq<Rec.Event>)
    requires Reachable(Contents, c, origin, es, l)
    requires r.rcvNxt == origin && r.ooseq == []
    requires forall i :: 0 <= i < |arrivals| && arrivals[i].Arrive? ==> exists g :: g in l.wire && arrivals[i].seg == OnWire(g)
    ensures var seen := Rec.Run(r, arrivals);
            seen.data <= l.accepted && (seen.fins == 1 ==> seen.data == l.accepted)
  {
    RunFaithful(c, origin, es, l);
    Rec.PrefixSafety(R.Peer(origin, l.accepted), r, arrivals);
  }

  lemma ReachOn(care: Care, c: Conf, origin: int, es: seq<Event>, l: Log, e: Event)
    requires Reachable(care, c, origin, es, l) && Allowed(care, c, l.tx, e)
    ensures Allowed(Any, c, l.tx, e) && Reachable(care, c, origin, es + [e], Step(c, l, e))
  {
    assert Allowed(Any, c, l.tx, e);
    assert (es + [e])[..|es + [e]| - 1] == es;
    hide Allowed, Step;
  }
}
