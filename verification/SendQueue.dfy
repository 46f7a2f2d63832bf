/** The send queues of a connection (lwip/core/tcp_out.c and the ACK processing of
    lwip/core/tcp_in.c) on unbounded stream positions. */
module SendQueue {
  import opened Common
  import opened SeqNum

  /** A queued segment. `opts` is the length of its TCP options, `pbufs` the length of its pbuf
      chain. */
  datatype Seg = Seg(seqno: int, data: seq<byte>, fin: bool, opts: nat, pbufs: nat) {
    /** TCP_TCPLEN */
    function TcpLen(): nat { |data| + if fin then 1 else 0 }

    function End(): int { seqno + TcpLen() }

    /** pbuf_clen() counts in a u8_t. */
    function Clen(): nat { pbufs % 0x100 }
  }

  /** TCP_SND_BUF, TCP_SND_QUEUELEN, TCP_OVERSIZE, MEM_ALIGNMENT and the option length of new
      segments. */
  datatype Conf = Conf(sndBuf: u16, maxQueue: nat, oversize: nat, align: nat, optlen: nat) {
    predicate Ok() { sndBuf < 0xffff && maxQueue <= 0xff && align > 0 }
  }

  /** The send fields of a pcb. `extra` counts a FIN that was added to a queued segment without
      moving snd_lbb. `writable` is the state test of tcp_write_checks(). */
  datatype Tx = Tx(unsent: seq<Seg>, unacked: seq<Seg>, sndNxt: int, lbb: int, lastack: int,
                   sndBuf: int, queueLen: int, oversize: nat, extra: nat, writable: bool)

  function Max(a: int, b: int): int { if a < b then b else a }

  function Last(q: seq<Seg>): Seg
    requires q != []
  {
    q[|q| - 1]
  }

  // ---------------------------------------------------------------- tcp_write

  /** What one call of tcp_write() is given besides the data: TCP_WRITE_FLAG_COPY and _MORE,
      TF_NODELAY, and the local MSS min(mss, snd_wnd_max / 2). */
  datatype How = How(copy: bool, more: bool, nodelay: bool, mss: u16)

  /** The usable bytes tcp_pbuf_prealloc() leaves at the end of a pbuf; `busy` says that some
      segment is queued. */
  function Extra(c: Conf, busy: bool, h: How, length: nat, maxLength: int, first: bool): (r: nat)
    requires c.align > 0
    ensures length <= maxLength ==> length + r <= maxLength
  {
    if length < maxLength && (h.more || (!h.nodelay && (!first || busy))) then
      var a := length + c.oversize + c.align - 1;
      Max(Min(maxLength, a - a % c.align) - length, 0)
    else 0
  }

  predicate Busy(s: Tx) { s.unsent != [] || s.unacked != [] }

  /** Phase 1: bytes copied into the spare room of the last unsent pbuf. */
  function Fill(s: Tx, len: nat): nat {
    if s.unsent != [] then Min(s.oversize, len) else 0
  }

  /** Room left in the last unsent segment, computed in 16 bits. */
  function Space(s: Tx, h: How, len: nat): nat {
    if s.unsent == [] then 0
    else Low16(Low16(h.mss - (|Last(s.unsent).data| + Last(s.unsent).opts)) - Fill(s, len))
  }

  /** Phase 2: bytes in a new pbuf chained to the last unsent segment. */
  function Concat(s: Tx, h: How, len: nat): (r: nat)
    ensures Fill(s, len) + r <= len
  {
    if s.unsent != [] && Fill(s, len) < len && Space(s, h, len) > 0 && |Last(s.unsent).data| > 0
    then Min(Space(s, h, len), len - Fill(s, len)) else 0
  }

  /** Phase 3: new segments for what is left. */
  function Chunks(data: seq<byte>, seqno: int, size: nat, opts: nat, pbufs: nat): seq<Seg>
    requires size > 0
  {
    if data == [] then []
    else
      var n := Min(|data|, size);
      [Seg(seqno, data[..n], false, opts, pbufs)] + Chunks(data[n..], seqno + n, size, opts, pbufs)
  }

  /** The bytes that go into the last unsent segment. */
  function Tail(s: Tx, h: How, len: nat): (r: nat)
    ensures r <= len
  {
    Fill(s, len) + Concat(s, h, len)
  }

  function NewSegments(c: Conf, s: Tx, h: How, arg: seq<byte>): seq<Seg>
    requires h.mss > c.optlen
  {
    var t := Tail(s, h, |arg|);
    Chunks(arg[t..], s.lbb + t, h.mss - c.optlen, c.optlen, if h.copy then 1 else 2)
  }

  /** The queue after the data is committed. */
  function Extended(c: Conf, s: Tx, h: How, arg: seq<byte>): seq<Seg>
    requires h.mss > c.optlen
  {
    if s.unsent == [] then NewSegments(c, s, h, arg)
    else
      var l := Last(s.unsent);
      var l' := l.(data := l.data + arg[..Tail(s, h, |arg|)],
                   pbufs := l.pbufs + if Concat(s, h, |arg|) > 0 then 1 else 0);
      s.unsent[..|s.unsent| - 1] + [l'] + NewSegments(c, s, h, arg)
  }

  /** unsent_oversize after phases 1 and 2. */
  function OversizeTail(c: Conf, s: Tx, h: How, len: nat): nat
    requires c.align > 0
  {
    if s.unsent == [] then 0
    else if Concat(s, h, len) > 0 && h.copy then Extra(c, Busy(s), h, Concat(s, h, len), Space(s, h, len), true)
    else s.oversize - Fill(s, len)
  }

  /** unsent_oversize after phase 3, which allocates `n` segments, the last with `len` bytes. */
  function OversizeAfter(c: Conf, s: Tx, h: How, arg: seq<byte>): nat
    requires h.mss > c.optlen && c.align > 0
  {
    var q := NewSegments(c, s, h, arg);
    if q != [] && h.copy then Extra(c, Busy(s), h, |Last(q).data| + c.optlen, h.mss, |q| == 1)
    else OversizeTail(c, s, h, |arg|)
  }

  /** tcp_write() when it succeeds. */
  function Written(c: Conf, s: Tx, h: How, arg: seq<byte>): Tx
    requires h.mss > c.optlen && c.align > 0
  {
    s.(unsent := Extended(c, s, h, arg),
       oversize := OversizeAfter(c, s, h, arg),
       lbb := s.lbb + |arg|,
       sndBuf := s.sndBuf - |arg|,
       queueLen := s.queueLen + Pbufs(Extended(c, s, h, arg)) - Pbufs(s.unsent))
  }

  /** All pbufs of a queue. */
  function Pbufs(q: seq<Seg>): nat {
    if q == [] then 0 else q[0].pbufs + Pbufs(q[1..])
  }

  /** The data bytes of a queue, end to end. */
  function Flat(q: seq<Seg>): seq<byte> {
    if q == [] then [] else q[0].data + Flat(q[1..])
  }

  // ---------------------------------------------------------------- the other operations

  /** tcp_enqueue_flags() with TCP_FIN, once memory is found. */
  function FinEnqueued(c: Conf, s: Tx): Tx {
    s.(unsent := s.unsent + [Seg(s.lbb, [], true, c.optlen, 1)], oversize := 0,
       lbb := s.lbb + 1, sndBuf := s.sndBuf - 1, queueLen := s.queueLen + 1, writable := false)
  }

  /** tcp_send_fin() when it can use the last unsent segment. */
  function FinAdded(s: Tx): Tx
    requires s.unsent != []
  {
    s.(unsent := s.unsent[..|s.unsent| - 1] + [Last(s.unsent).(fin := true)], extra := s.extra + 1, writable := false)
  }

  function Closed(c: Conf, s: Tx): Tx {
    if s.unsent != [] && !Last(s.unsent).fin then FinAdded(s) else FinEnqueued(c, s)
  }

  /** Insert before the first segment that does not start below `g`. */
  function InsertSorted(q: seq<Seg>, g: Seg): seq<Seg> {
    if q == [] || q[0].seqno >= g.seqno then [g] + q else [q[0]] + InsertSorted(q[1..], g)
  }

  /** Where tcp_output() puts a segment it has sent. */
  function PutUnacked(q: seq<Seg>, g: Seg): seq<Seg> {
    if q == [] then [g]
    else if g.seqno < Last(q).seqno then InsertSorted(q, g)
    else q + [g]
  }

  /** What decides whether tcp_output() goes on: the window min(snd_wnd, cwnd), the flags that
      switch Nagle off, TCP_SND_QUEUELEN and mss. */
  datatype Pace = Pace(wnd: nat, force: bool, mss: u16)

  /** tcp_do_output_nagle(), or a flag that overrides it. */
  predicate MaySend(c: Conf, s: Tx, p: Pace) {
    || p.force || s.unacked == []
    || (s.unsent != [] && (|s.unsent| > 1 || |s.unsent[0].data| >= p.mss))
    || s.sndBuf == 0 || s.queueLen >= c.maxQueue
  }

  predicate Sendable(c: Conf, s: Tx, p: Pace) {
    && s.unsent != []
    && Wrap(s.unsent[0].seqno - s.lastack + |s.unsent[0].data|) <= p.wnd
    && MaySend(c, s, p)
  }

  /** One turn of the loop of tcp_output(). */
  function SendOne(s: Tx): Tx
    requires s.unsent != []
  {
    var g := s.unsent[0];
    s.(unsent := s.unsent[1..],
       sndNxt := Max(s.sndNxt, g.End()),
       unacked := if g.TcpLen() > 0 then PutUnacked(s.unacked, g) else s.unacked)
  }

  /** tcp_output(): the new state and the segments put on the wire. */
  function Output(c: Conf, s: Tx, p: Pace): (Tx, seq<Seg>)
    decreases |s.unsent|
  {
    if Sendable(c, s, p) then
      var (t, sent) := Output(c, SendOne(s), p);
      (t, [s.unsent[0]] + sent)
    else (if s.unsent == [] then s.(oversize := 0) else s, [])
  }

  /** tcp_rexmit(): the first unacked segment goes back to the unsent queue. */
  function Rexmit(s: Tx): Tx {
    if s.unacked == [] then s
    else
      var q := InsertSorted(s.unsent, s.unacked[0]);
      s.(unacked := s.unacked[1..], unsent := q,
         oversize := if Last(q) == s.unacked[0] then 0 else s.oversize)
  }

  /** tcp_rexmit_rto() before it calls tcp_output(). */
  function Requeued(s: Tx): Tx {
    s.(unsent := s.unacked + s.unsent, unacked := [])
  }

  /** The segments at the head that end at or below `ackno`, and the rest. */
  function Acked(q: seq<Seg>, ackno: int): (r: nat)
    ensures r <= |q|
  {
    if q != [] && q[0].End() <= ackno then 1 + Acked(q[1..], ackno) else 0
  }

  function Clens(q: seq<Seg>): nat {
    if q == [] then 0 else q[0].Clen() + Clens(q[1..])
  }

  function Fins(q: seq<Seg>): nat {
    if q == [] then 0 else (if q[0].fin then 1 else 0) + Fins(q[1..])
  }

  /** Free the first `n` unacked segments. */
  function FreeUnacked(s: Tx, n: nat): Tx
    requires n <= |s.unacked|
  {
    s.(unacked := s.unacked[n..], queueLen := s.queueLen - Clens(s.unacked[..n]))
  }

  function FreeUnsent(s: Tx, n: nat): Tx
    requires n <= |s.unsent|
  {
    s.(unsent := s.unsent[n..], queueLen := s.queueLen - Clens(s.unsent[..n]),
       oversize := if n > 0 && n == |s.unsent| then 0 else s.oversize)
  }

  /** The ACK processing of tcp_receive() up to the pass over the unsent queue; `third` says that
      this is the third duplicate. */
  function AckHead(s: Tx, ackno: int, third: bool): Tx {
    if ackno <= s.lastack then if third then Rexmit(s) else s
    else if ackno <= s.sndNxt then
      FreeUnacked(s.(sndBuf := s.sndBuf + Low16(ackno - s.lastack), lastack := ackno), Acked(s.unacked, ackno))
    else s
  }

  /** The pass over the unsent queue, which may hold segments that were sent before. */
  function AckTail(s: Tx, ackno: int): Tx {
    FreeUnsent(s, if ackno <= s.sndNxt then Acked(s.unsent, ackno) else 0)
  }

  function AckReceived(s: Tx, ackno: int, third: bool): Tx {
    AckTail(AckHead(s, ackno, third), ackno)
  }

  // ---------------------------------------------------------------- the invariant

  /** The segments tile [from, to) in order. */
  ghost predicate Chain(q: seq<Seg>, from: int, to: int) {
    if q == [] then from == to
    else q[0].seqno == from && q[0].TcpLen() > 0 && Chain(q[1..], q[0].End(), to)
  }

  /** Both queues in order of sequence numbers. */
  ghost function Merge(a: seq<Seg>, b: seq<Seg>): (r: seq<Seg>)
    ensures |r| == |a| + |b|
    decreases |a| + |b|
  {
    if a == [] then b
    else if b == [] then a
    else if a[0].seqno < b[0].seqno then [a[0]] + Merge(a[1..], b)
    else [b[0]] + Merge(a, b[1..])
  }

  ghost function Line(s: Tx): seq<Seg> { Merge(s.unacked, s.unsent) }

  /** The first position not yet given up. */
  ghost function Base(s: Tx): int {
    if Line(s) == [] then s.lbb + s.extra else Line(s)[0].seqno
  }

  /** Everything queued tiles the sequence space from the segment that holds lastack up to
      snd_lbb, and only a closed connection has a FIN queued. */
  ghost predicate Tiled(s: Tx) {
    && Chain(Line(s), Base(s), s.lbb + s.extra)
    && Base(s) <= s.lastack <= s.sndNxt <= s.lbb + s.extra
    && (Line(s) != [] ==> s.lastack < Line(s)[0].End())
    && (s.writable ==> s.extra == 0 && forall g :: g in Line(s) ==> !g.fin)
    && s.extra <= 1
  }

  /** The counters agree with the queues. */
  ghost predicate Counted(c: Conf, s: Tx) {
    && s.sndBuf + (s.lbb - s.lastack) == c.sndBuf && s.lbb - s.lastack <= c.sndBuf
    && s.queueLen == Pbufs(s.unacked) + Pbufs(s.unsent) <= c.maxQueue
    && (s.unsent == [] ==> s.oversize == 0)
    && (forall i :: 0 <= i < |s.unacked| ==> s.unacked[i].End() <= s.sndNxt)
  }

  ghost predicate Inv(c: Conf, s: Tx) {
    c.Ok() && Tiled(s) && Counted(c, s)
  }
}
