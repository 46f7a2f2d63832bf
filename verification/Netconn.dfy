/** lwip/api/api_msg.c: the messages of application threads on a TCP netconn, and the callbacks of
    the TCP pcb that complete them. (Without core locking and send timeouts.) */
module Netconn {
  import opened Common
  import opened SeqNum

  type Err = int

  const ERR_OK: Err := 0
  const ERR_MEM: Err := -1
  const ERR_INPROGRESS: Err := -5
  const ERR_VAL: Err := -6
  const ERR_WOULDBLOCK: Err := -7
  const ERR_ISCONN: Err := -9
  const ERR_CLSD: Err := -12
  const ERR_CONN: Err := -13
  const ERR_ARG: Err := -14

  predicate IsFatal(e: Err) { e < ERR_ISCONN }

  datatype NetState = NONE | WRITE | LISTEN | CONNECT | CLOSE

  /** The pcb of the netconn: none, in LISTEN, in CLOSED, in SYN_SENT, able to send (SYN_RCVD,
      ESTABLISHED, CLOSE_WAIT), or with its sending side closed (any other state). */
  datatype Pcb = NoPcb | Listening | Fresh | SynSent | Open | Shut

  datatype Op =
    | Write(data: seq<byte>, isNull: bool, dontblock: bool)
    | Close(rd: bool, wr: bool)
    | Connect
    | Listen
    | Delete

  /** struct api_msg_msg: `len` is msg.w.len, `done` that the thread has been signalled for it, `sent`
      what tcp_write() accepted of it. */
  datatype Msg = Msg(op: Op, len: nat, err: Err, done: bool, sent: seq<byte>)

  // ---------------------------------------------------------------- what TCP answers

  /** tcp_write() of `len` bytes, which fit the send buffer; `mem` says whether there is memory and
      room in the queue for them. */
  function TcpWrite(pcb: Pcb, isNull: bool, len: nat, mem: bool): Err {
    if isNull then ERR_ARG
    else if !pcb.Open? && !pcb.SynSent? then ERR_CONN
    else if len == 0 || mem then ERR_OK
    else ERR_MEM
  }

  /** tcp_close(), which fails only when there is no memory for a FIN. */
  function TcpClose(pcb: Pcb, mem: bool): Err {
    if pcb.Open? && !mem then ERR_MEM else ERR_OK
  }

  /** tcp_shutdown() */
  function TcpShutdown(pcb: Pcb, rd: bool, wr: bool, mem: bool): Err {
    if pcb.Listening? then ERR_CONN
    else if rd && wr then TcpClose(pcb, mem)
    else if wr then if pcb.Open? then TcpClose(pcb, mem) else ERR_CONN
    else ERR_OK
  }

  /** tcp_connect(); `err` is what it finds on a pcb in CLOSED. */
  function TcpConnect(pcb: Pcb, err: Err): Err {
    if pcb.Fresh? then err else ERR_ISCONN
  }

  /** Shutting down both ends is the same as closing. */
  predicate IsRdWr(op: Op) { op.Delete? || (op.Close? && op.rd && op.wr) }

  // ---------------------------------------------------------------- one netconn by its values

  /** struct netconn. `msgs` are all messages handled so far and `currentMsg` the number of
      current_msg; `signals` counts those on op_completed; `stream` is all that tcp_write() accepted;
      `wasNonblocking` says that the flag has been set. */
  datatype Conn = Conn(
    state: NetState, pcb: Pcb, currentMsg: Option<nat>, writeOffset: nat,
    nonblocking: bool, inNonblockingConnect: bool, checkWritespace: bool, lastErr: Err,
    signals: nat, msgs: seq<Msg>, stream: seq<byte>, wasNonblocking: bool)
  {
    predicate Busy() { currentMsg.Some? && currentMsg.value < |msgs| }

    function Current(): Msg
      requires Busy()
    {
      msgs[currentMsg.value]
    }

    /** There is what do_writemore() works on. */
    predicate Writing() {
      state == WRITE && Busy() && Current().op.Write? && writeOffset <= |Current().op.data| == Current().len
    }

    /** There is what do_close_internal() works on. */
    predicate Closing() {
      state == CLOSE && Busy() && (Current().op.Close? || Current().op.Delete?)
    }

    /** TCPIP_APIMSG_ACK(): the message is answered at once. */
    function Ack(op: Op, err: Err): Conn {
      this.(msgs := msgs + [Msg(op, 0, err, true, [])], signals := signals + 1)
    }

    /** The message becomes the current one. */
    function Begin(op: Op, len: nat, s: NetState): Conn {
      this.(currentMsg := Some(|msgs|), msgs := msgs + [Msg(op, len, ERR_OK, false, [])], state := s,
            writeOffset := if op.Write? then 0 else writeOffset)
    }

    /** The thread that waits for the current message is released. */
    function Complete(len: nat, err: Err): Conn
      requires Busy()
    {
      this.(msgs := msgs[currentMsg.value := Current().(len := len, err := err, done := true)], currentMsg := None,
            state := NONE, signals := signals + 1)
    }

    predicate DontBlock()
      requires Busy() && Current().op.Write?
    {
      nonblocking || Current().op.dontblock
    }

    /** How much of the current message do_writemore() tries to write. */
    function Portion(sndbuf: u16): (k: nat)
      requires Writing()
      ensures writeOffset + k <= Current().len && k <= sndbuf
    {
      Min(Current().len - writeOffset, sndbuf)
    }

    /** What comes of it. */
    function WriteResult(sndbuf: u16, mem: bool): Err
      requires Writing()
    {
      var k := Portion(sndbuf);
      if DontBlock() && k == 0 < Current().len - writeOffset then ERR_WOULDBLOCK
      else TcpWrite(pcb, Current().op.isNull && writeOffset == 0, k, mem)
    }

    /** tcp_write() accepted the next k bytes. */
    function Accept(k: nat): Conn
      requires Writing() && writeOffset + k <= Current().len
    {
      var m, off := Current(), writeOffset + k;
      var more := m.op.data[writeOffset..off];
      var w := m.(sent := m.sent + more);
      if off == m.len || DontBlock() then
        this.(msgs := msgs[currentMsg.value := w.(len := off, err := ERR_OK, done := true)], currentMsg := None,
              state := NONE, signals := signals + 1, stream := stream + more, writeOffset := 0)
      else
        this.(msgs := msgs[currentMsg.value := w], stream := stream + more, writeOffset := off)
    }

    /** do_writemore() */
    function WriteMore(sndbuf: u16, mem: bool): Conn
      requires Writing()
    {
      var k, err := Portion(sndbuf), WriteResult(sndbuf, mem);
      var full := DontBlock() && k < Current().len && (err == ERR_OK || err == ERR_MEM || err == ERR_WOULDBLOCK);
      var s := this.(checkWritespace := checkWritespace || full);
      if err == ERR_OK then s.Accept(k)
      else if err == ERR_MEM && !DontBlock() then s
      else s.Complete(0, err)
    }

    /** do_write() */
    function Write(data: seq<byte>, isNull: bool, dontblock: bool, sndbuf: u16, mem: bool): Conn {
      var op := Op.Write(data, isNull, dontblock);
      if IsFatal(lastErr) then Ack(op, lastErr)
      else if state != NONE then Ack(op, ERR_INPROGRESS)
      else if pcb == NoPcb then Ack(op, ERR_CONN)
      else Begin(op, |data|, WRITE).WriteMore(sndbuf, mem)
    }

    function CloseResult(mem: bool): Err
      requires Closing()
    {
      var op := Current().op;
      if IsRdWr(op) then TcpClose(pcb, mem) else TcpShutdown(pcb, op.rd, op.wr, mem)
    }

    /** do_close_internal() */
    function CloseMore(mem: bool): Conn
      requires Closing()
    {
      var op := Current().op;
      if CloseResult(mem) != ERR_OK then this
      else Complete(Current().len, ERR_OK).(pcb := if IsRdWr(op) then NoPcb else if op.wr then Shut else pcb)
    }

    /** do_close() */
    function Close(rd: bool, wr: bool, mem: bool): Conn {
      var op := Op.Close(rd, wr);
      if state != NONE && state != LISTEN then Ack(op, ERR_INPROGRESS)
      else if pcb == NoPcb then Ack(op, ERR_VAL)
      else if !(rd && wr) && state == LISTEN then Ack(op, ERR_CONN)
      else Begin(op, 0, CLOSE).CloseMore(mem)
    }

    /** do_delconn() */
    function Delete(mem: bool): Conn {
      if state != NONE && state != LISTEN && state != CONNECT then Ack(Op.Delete, ERR_INPROGRESS)
      else if pcb == NoPcb then Ack(Op.Delete, ERR_OK)
      else Begin(Op.Delete, 0, CLOSE).CloseMore(mem)
    }

    /** do_connect() */
    function Connect(err: Err): Conn {
      if pcb == NoPcb then Ack(Op.Connect, ERR_CLSD)
      else if state != NONE then Ack(Op.Connect, ERR_ISCONN)
      else if TcpConnect(pcb, err) != ERR_OK then Ack(Op.Connect, TcpConnect(pcb, err))
      else
        var s := this.(pcb := SynSent, inNonblockingConnect := nonblocking);
        if nonblocking then s.Ack(Op.Connect, ERR_INPROGRESS).(state := CONNECT) else s.Begin(Op.Connect, 0, CONNECT)
    }

    /** do_listen(); `mem` and `mbox` say whether a listening pcb and an acceptmbox can be had. */
    function Listen(mem: bool, mbox: bool): Conn {
      if IsFatal(lastErr) then Ack(Op.Listen, lastErr)
      else if pcb == NoPcb || state != NONE then Ack(Op.Listen, ERR_CONN)
      else if pcb != Fresh || !mem then Ack(Op.Listen, ERR_MEM)
      else if mbox then Ack(Op.Listen, ERR_OK).(state := LISTEN, pcb := Listening)
      else Ack(Op.Listen, ERR_MEM).(pcb := NoPcb)
    }

    /** NETCONN_SET_SAFE_ERR(): fatal errors stay. */
    function SafeErr(err: Err): Conn {
      if IsFatal(lastErr) then this else this.(lastErr := err)
    }

    /** do_connected() */
    function Connected(err: Err): Conn {
      var s := if Busy() then Complete(0, err) else this;
      var t := s.(inNonblockingConnect := false, state := NONE, pcb := Open);
      if inNonblockingConnect then t.SafeErr(ERR_OK) else t
    }

    /** sent_tcp() and poll_tcp(): go on with what is pending. */
    function Sent(sndbuf: u16, mem: bool, writable: bool): Conn {
      var s := if Writing() then WriteMore(sndbuf, mem) else if Closing() then CloseMore(mem) else this;
      if s.pcb != NoPcb && writable then s.(checkWritespace := false) else s
    }

    /** err_tcp() */
    function Failed(err: Err): Conn {
      var s := this.(pcb := NoPcb, lastErr := err, state := NONE);
      if state == NONE || state == LISTEN then s
      else if inNonblockingConnect || !Busy() then s.(inNonblockingConnect := false)
      else s.Complete(Current().len, err)
    }

    /** netconn_set_nonblocking() */
    function SetNonblocking(on: bool): Conn {
      this.(nonblocking := on, wasNonblocking := wasNonblocking || on)
    }

    // -------------------------------------------------------------- what holds of it

    /** There is one signal for every message but the one that is being worked on, and the bytes are
        accounted for. */
    ghost predicate Sound() {
      && (currentMsg.Some? ==> currentMsg.value < |msgs|)
      && signals + (if currentMsg.Some? then 1 else 0) == |msgs|
      && Accounts(msgs, stream, currentMsg, writeOffset, wasNonblocking)
    }

    /** State, pcb and current message belong together: as the assertions of all these functions
        have it, and no waiting thread depends on a pcb that is not there. */
    ghost predicate Coherent() {
      && (inNonblockingConnect ==> state == CONNECT || pcb == NoPcb)
      && (nonblocking ==> wasNonblocking)
      && (state == CONNECT <==> pcb == SynSent)
      && (state == LISTEN <==> pcb == Listening)
      && match state
         case NONE => currentMsg == None
         case LISTEN => currentMsg == None
         case WRITE => && Writing() && writeOffset < Current().len && pcb == Open
                       && !Current().op.dontblock && !Current().op.isNull
         case CLOSE => Closing() && (pcb == Open || HalfClosing())
         case CONNECT => if Busy() then Current().op.Connect? && !inNonblockingConnect
                         else currentMsg == None && inNonblockingConnect
    }

    ghost predicate Valid() { Coherent() && Sound() }

    /** A half close of the sending side of a pcb that has nothing to close. */
    predicate HalfClosing() {
      Closing() && Current().op == Op.Close(false, true) && (pcb == Fresh || pcb == Shut)
    }

    /** What do_write(), do_close() and do_delconn() assert when they start: nothing of an earlier
        write is left. (On a netconn without pcb they do not start.) */
    predicate Idle() { state != WRITE && pcb != NoPcb ==> writeOffset == 0 }
  }

  // ---------------------------------------------------------------- the bytes of the messages

  /** What was accepted of all messages, in the order of the messages. */
  function Concat(msgs: seq<Msg>): seq<byte> {
    if msgs == [] then [] else Concat(msgs[..|msgs| - 1]) + msgs[|msgs| - 1].sent
  }

  /** Message m has taken the place of number c, with `more` accepted of it. */
  lemma {:induction false} ConcatGrow(msgs: seq<Msg>, c: nat, m: Msg, more: seq<byte>)
    requires c < |msgs| && m.sent == msgs[c].sent + more
    requires more == [] || forall j :: c < j < |msgs| ==> msgs[j].sent == []
    ensures Concat(msgs[c := m]) == Concat(msgs) + more
    decreases |msgs|
  {
    var n := |msgs| - 1;
    var r := msgs[c := m];
    if c == n {
      assert r[..n] == msgs[..n];
    } else {
      assert r[..n] == msgs[..n][c := m];
      ConcatGrow(msgs[..n], c, m, more);
    }
  }

  /** What is true of a message: a current write has handed over its first `off` bytes, and a write
      that came back with ERR_OK the bytes it reports, which are all when it may block. */
  ghost predicate MsgOk(m: Msg, current: bool, off: nat, nb: bool) {
    && (m.done <==> !current)
    && match m.op
       case Write(data, _, dontblock) =>
         && m.sent <= data
         && (current ==> m.len == |data| && off <= |data| && m.sent == data[..off])
         && (!current && m.err == ERR_OK ==> m.len == |m.sent| && (!dontblock && !nb ==> m.sent == data))
       case _ => m.sent == []
  }

  /** The bytes of every message, and all together. */
  ghost predicate Accounts(msgs: seq<Msg>, stream: seq<byte>, cur: Option<nat>, off: nat, nb: bool) {
    && stream == Concat(msgs)
    && (forall i :: 0 <= i < |msgs| ==> MsgOk(msgs[i], cur == Some(i), off, nb))
    && (cur.Some? ==> forall j :: cur.value < j < |msgs| ==> msgs[j].sent == [])
  }

  /** One more message at the end. */
  lemma AccountsOn(msgs: seq<Msg>, stream: seq<byte>, cur: Option<nat>, off: nat, nb: bool, m: Msg, cur1: Option<nat>, off1: nat)
    requires Accounts(msgs, stream, cur, off, nb) && m.sent == [] && (cur.Some? ==> cur.value < |msgs|)
    requires MsgOk(m, cur1 == Some(|msgs|), off1, nb)
    requires (cur1 == cur && off1 == off) || (cur == None && cur1 == Some(|msgs|))
    ensures Accounts(msgs + [m], stream, cur1, off1, nb)
  {
    var r := msgs + [m];
    assert r[..|msgs|] == msgs;
    forall i | 0 <= i < |r| ensures MsgOk(r[i], cur1 == Some(i), off1, nb) {
      if i < |msgs| { assert MsgOk(msgs[i], cur == Some(i), off, nb); }
    }
  }

  /** The current message has become m, and goes on or is finished. */
  lemma AccountsAt(msgs: seq<Msg>, stream: seq<byte>, c: nat, off: nat, nb: bool, m: Msg, more: seq<byte>, cur1: Option<nat>, off1: nat)
    requires c < |msgs| && Accounts(msgs, stream, Some(c), off, nb) && m.sent == msgs[c].sent + more
    requires cur1 == None || cur1 == Some(c)
    requires MsgOk(m, cur1 == Some(c), off1, nb)
    ensures Accounts(msgs[c := m], stream + more, cur1, off1, nb)
  {
    var r := msgs[c := m];
    ConcatGrow(msgs, c, m, more);
    forall i | 0 <= i < |r| ensures MsgOk(r[i], cur1 == Some(i), off1, nb) {
      if i != c { assert MsgOk(msgs[i], Some(c) == Some(i), off, nb); }
    }
  }

  lemma CurrentOk(s: Conn)
    requires s.Sound() && s.Busy()
    ensures MsgOk(s.Current(), true, s.writeOffset, s.wasNonblocking)
  {
    assert MsgOk(s.Current(), s.currentMsg == Some(s.currentMsg.value), s.writeOffset, s.wasNonblocking);
  }

  /** A message that is answered at once. */
  lemma AckSound(s: Conn, op: Op, err: Err)
    requires s.Sound() && (op.Write? ==> err != ERR_OK)
    ensures s.Ack(op, err).Sound()
    ensures s.Busy() ==> s.Ack(op, err).Busy() && s.Ack(op, err).Current() == s.Current()
  {
    AccountsOn(s.msgs, s.stream, s.currentMsg, s.writeOffset, s.wasNonblocking, Msg(op, 0, err, true, []), s.currentMsg, s.writeOffset);
    hide Accounts;
  }

  /** A message that becomes the current one. */
  lemma BeginSound(s: Conn, op: Op, len: nat, st: NetState)
    requires s.Sound() && s.currentMsg == None && (op.Write? ==> len == |op.data|)
    ensures var r := s.Begin(op, len, st);
            r.Sound() && r.Busy() && r.Current() == Msg(op, len, ERR_OK, false, [])
  {
    var m := Msg(op, len, ERR_OK, false, []);
    AccountsOn(s.msgs, s.stream, None, s.writeOffset, s.wasNonblocking, m, Some(|s.msgs|), if op.Write? then 0 else s.writeOffset);
    hide Accounts;
  }

  /** The current message is finished. */
  lemma DoneSound(s: Conn, len: nat, err: Err)
    requires s.Sound() && s.Busy() && (s.Current().op.Write? ==> err != ERR_OK)
    ensures s.Complete(len, err).Sound()
  {
    CurrentOk(s);
    var m := s.Current().(len := len, err := err, done := true);
    AccountsAt(s.msgs, s.stream, s.currentMsg.value, s.writeOffset, s.wasNonblocking, m, [], None, s.writeOffset);
    assert s.stream + [] == s.stream;
    hide Accounts;
  }

  /** The current write hands over k more bytes, and goes on or is finished: what TCP has of it stays
      the data up to write_offset. */
  lemma AcceptSound(s: Conn, k: nat)
    requires s.Sound() && s.Writing() && s.writeOffset + k <= s.Current().len && (s.nonblocking ==> s.wasNonblocking)
    ensures s.Accept(k).Sound()
  {
    AcceptAccounts(s, k);
    hide Accounts, MsgOk;
  }

  lemma AcceptAccounts(s: Conn, k: nat)
    requires s.Sound() && s.Writing() && s.writeOffset + k <= s.Current().len && (s.nonblocking ==> s.wasNonblocking)
    ensures var r := s.Accept(k); Accounts(r.msgs, r.stream, r.currentMsg, r.writeOffset, r.wasNonblocking)
  {
    hide Accounts, MsgOk;
    CurrentOk(s);
    var c, m, off := s.currentMsg.value, s.Current(), s.writeOffset + k;
    var more := m.op.data[s.writeOffset..off];
    var w := m.(sent := m.sent + more);
    AcceptMsg(m, s.writeOffset, k, s.wasNonblocking);
    if off == m.len || s.DontBlock() {
      AccountsAt(s.msgs, s.stream, c, s.writeOffset, s.wasNonblocking, w.(len := off, err := ERR_OK, done := true), more, None, 0);
    } else {
      AccountsAt(s.msgs, s.stream, c, s.writeOffset, s.wasNonblocking, w, more, Some(c), off);
    }
  }

  lemma AcceptMsg(m: Msg, off: nat, k: nat, nb: bool)
    requires m.op.Write? && off + k <= |m.op.data| && MsgOk(m, true, off, nb)
    ensures var w := m.(sent := m.sent + m.op.data[off..off + k]);
            && MsgOk(w, true, off + k, nb)
            && (off + k == m.len || m.op.dontblock || nb ==> MsgOk(w.(len := off + k, err := ERR_OK, done := true), false, 0, nb))
  {
    assert m.sent + m.op.data[off..off + k] == m.op.data[..off + k];
  }

  // ---------------------------------------------------------------- runs

  /** Messages from application threads, and callbacks, with what TCP finds. */
  datatype Event =
    | DoWrite(data: seq<byte>, isNull: bool, dontblock: bool, sndbuf: u16, mem: bool)
    | DoClose(rd: bool, wr: bool, mem: bool)
    | DoDelete(mem: bool)
    | DoConnect(err: Err)
    | DoListen(mem: bool, mbox: bool)
    | Connected
    | Sent(sndbuf: u16, mem: bool, writable: bool)
    | Failed(err: Err)
    | SetNonblocking(on: bool)
    | SafeErr(err: Err)

  function Step(s: Conn, e: Event): Conn {
    match e
    case DoWrite(data, isNull, dontblock, sndbuf, mem) => s.Write(data, isNull, dontblock, sndbuf, mem)
    case DoClose(rd, wr, mem) => s.Close(rd, wr, mem)
    case DoDelete(mem) => s.Delete(mem)
    case DoConnect(err) => s.Connect(err)
    case DoListen(mem, mbox) => s.Listen(mem, mbox)
    case Connected => s.Connected(ERR_OK)
    case Sent(sndbuf, mem, writable) => s.Sent(sndbuf, mem, writable)
    case Failed(err) => s.Failed(err)
    case SetNonblocking(on) => s.SetNonblocking(on)
    case SafeErr(err) => s.SafeErr(err)
  }

  /** What the program guarantees: netconn_write() sends no empty message, nobody deletes a netconn
      on which a thread waits for a connection, and only a pcb that is there and does not listen has
      callbacks, the connected one in SYN_SENT. */
  predicate Possible(s: Conn, e: Event) {
    match e
    case DoWrite(data, _, _, _, _) => data != []
    case DoDelete(_) => s.state == CONNECT ==> s.inNonblockingConnect
    case Connected => s.pcb == SynSent
    case Sent(_, _, _) => s.pcb != NoPcb && s.pcb != Listening
    case Failed(err) => s.pcb != NoPcb && s.pcb != Listening && err != ERR_OK
    case _ => true
  }

  function Run(s: Conn, es: seq<Event>): Conn {
    if es == [] then s else Step(Run(s, es[..|es| - 1]), es[|es| - 1])
  }

  ghost predicate PossibleRun(s: Conn, es: seq<Event>) {
    forall i :: 0 <= i < |es| ==> Possible(Run(s, es[..i]), es[i])
  }

  // ---------------------------------------------------------------- every step keeps the invariant

  lemma AckValid(s: Conn, op: Op, err: Err)
    requires s.Valid() && (op.Write? ==> err != ERR_OK)
    ensures s.Ack(op, err).Valid()
  {
    AckSound(s, op, err);
    hide Conn.Sound;
  }

  lemma WriteMoreSound(s: Conn, sndbuf: u16, mem: bool)
    requires s.Sound() && s.Writing() && (s.nonblocking ==> s.wasNonblocking)
    ensures s.WriteMore(sndbuf, mem).Sound()
  {
    hide Conn.Sound, Conn.Accept, Conn.Complete, Conn.WriteResult, Conn.DontBlock;
    var k, err := s.Portion(sndbuf), s.WriteResult(sndbuf, mem);
    var full := s.DontBlock() && k < s.Current().len && (err == ERR_OK || err == ERR_MEM || err == ERR_WOULDBLOCK);
    var t := s.(checkWritespace := s.checkWritespace || full);
    CheckSound(s, t.checkWritespace);
    if err == ERR_OK {
      AcceptSound(t, k);
    } else if err != ERR_MEM || s.DontBlock() {
      DoneSound(t, 0, err);
    }
  }

  lemma CheckSound(s: Conn, check: bool)
    requires s.Sound()
    ensures s.(checkWritespace := check).Sound()
  {
    hide Accounts;
  }

  /** When do_writemore() releases the thread, and with what. */
  lemma WriteMoreOutcome(s: Conn, sndbuf: u16, mem: bool)
    requires s.Writing()
    ensures var r, err, k, m := s.WriteMore(sndbuf, mem), s.WriteResult(sndbuf, mem), s.Portion(sndbuf), s.Current();
            var off, c := s.writeOffset + k, s.currentMsg.value;
            && r.pcb == s.pcb && r.lastErr == s.lastErr && r.inNonblockingConnect == s.inNonblockingConnect
            && r.nonblocking == s.nonblocking && r.wasNonblocking == s.wasNonblocking && |r.msgs| == |s.msgs|
            && r.msgs[c].op == m.op && (forall i :: 0 <= i < |s.msgs| && i != c ==> r.msgs[i] == s.msgs[i])
            && r.stream == s.stream + (if err == ERR_OK then m.op.data[s.writeOffset..off] else [])
            && if s.DontBlock() || (err == ERR_OK && off == m.len) || (err != ERR_OK && err != ERR_MEM) then
                 && r.state == NONE && r.currentMsg == None && r.signals == s.signals + 1
                 && r.msgs[c].done && r.msgs[c].err == err && r.msgs[c].len == (if err == ERR_OK then off else 0)
                 && r.writeOffset == if err == ERR_OK then 0 else s.writeOffset
               else
                 && r.state == WRITE && r.currentMsg == s.currentMsg && r.signals == s.signals && r.msgs[c].len == m.len
                 && r.writeOffset == if err == ERR_OK then off else s.writeOffset
  {
    hide Conn.WriteResult;
    assert s.stream + [] == s.stream;
  }

  lemma WriteMoreValid(s: Conn, sndbuf: u16, mem: bool)
    requires s.Sound() && s.Writing() && s.writeOffset < s.Current().len
    requires s.pcb == Open || (s.writeOffset == 0 && (s.pcb == Fresh || s.pcb == Shut))
    requires !s.inNonblockingConnect && (s.nonblocking ==> s.wasNonblocking)
    requires s.Current().op.isNull || s.Current().op.dontblock ==> s.writeOffset == 0
    ensures s.WriteMore(sndbuf, mem).Valid()
  {
    WriteMoreSound(s, sndbuf, mem);
    WriteMoreOutcome(s, sndbuf, mem);
    hide Conn.Sound, Conn.WriteMore;
  }

  lemma WriteValid(s: Conn, data: seq<byte>, isNull: bool, dontblock: bool, sndbuf: u16, mem: bool)
    requires s.Valid() && data != []
    ensures s.Write(data, isNull, dontblock, sndbuf, mem).Valid()
  {
    hide Conn.Sound, Conn.WriteMore;
    var op := Op.Write(data, isNull, dontblock);
    if IsFatal(s.lastErr) || s.state != NONE || s.pcb == NoPcb {
      AckValid(s, op, if IsFatal(s.lastErr) then s.lastErr else if s.state != NONE then ERR_INPROGRESS else ERR_CONN);
    } else {
      BeginSound(s, op, |data|, WRITE);
      WriteMoreValid(s.Begin(op, |data|, WRITE), sndbuf, mem);
    }
  }

  lemma CloseMoreValid(s: Conn, mem: bool)
    requires s.Sound() && s.Closing() && s.pcb != NoPcb && (s.nonblocking ==> s.wasNonblocking)
    requires s.inNonblockingConnect ==> s.Current().op.Delete? && s.pcb == SynSent
    requires s.pcb == SynSent || s.pcb == Listening ==> IsRdWr(s.Current().op)
    ensures s.CloseMore(mem).Valid()
  {
    if s.CloseResult(mem) == ERR_OK { DoneSound(s, s.Current().len, ERR_OK); }
    hide Accounts;
  }

  lemma CloseValid(s: Conn, rd: bool, wr: bool, mem: bool)
    requires s.Valid()
    ensures s.Close(rd, wr, mem).Valid()
  {
    hide Conn.Sound, Conn.CloseMore;
    var op := Op.Close(rd, wr);
    if s.state != NONE && s.state != LISTEN {
      AckValid(s, op, ERR_INPROGRESS);
    } else if s.pcb == NoPcb {
      AckValid(s, op, ERR_VAL);
    } else if !(rd && wr) && s.state == LISTEN {
      AckValid(s, op, ERR_CONN);
    } else {
      BeginSound(s, op, 0, CLOSE);
      CloseMoreValid(s.Begin(op, 0, CLOSE), mem);
    }
  }

  lemma DeleteValid(s: Conn, mem: bool)
    requires s.Valid() && (s.state == CONNECT ==> s.inNonblockingConnect)
    ensures s.Delete(mem).Valid()
  {
    hide Conn.Sound, Conn.CloseMore;
    if s.state == WRITE || s.state == CLOSE {
      AckValid(s, Op.Delete, ERR_INPROGRESS);
    } else if s.pcb == NoPcb {
      AckValid(s, Op.Delete, ERR_OK);
    } else {
      BeginSound(s, Op.Delete, 0, CLOSE);
      CloseMoreValid(s.Begin(Op.Delete, 0, CLOSE), mem);
    }
  }

  lemma ConnectValid(s: Conn, err: Err)
    requires s.Valid()
    ensures s.Connect(err).Valid()
  {
    if s.pcb == NoPcb || s.state != NONE || TcpConnect(s.pcb, err) != ERR_OK {
      hide Conn.Sound, Conn.Coherent;
      AckValid(s, Op.Connect, if s.pcb == NoPcb then ERR_CLSD else if s.state != NONE then ERR_ISCONN else TcpConnect(s.pcb, err));
    } else {
      hide Accounts;
      var t := s.(pcb := SynSent, inNonblockingConnect := s.nonblocking);
      assert t.Sound();
      hide Conn.Sound;
      if s.nonblocking { AckSound(t, Op.Connect, ERR_INPROGRESS); } else { BeginSound(t, Op.Connect, 0, CONNECT); }
    }
  }

  lemma ListenValid(s: Conn, mem: bool, mbox: bool)
    requires s.Valid()
    ensures s.Listen(mem, mbox).Valid()
  {
    hide Conn.Sound;
    var err := if IsFatal(s.lastErr) then s.lastErr else if s.pcb == NoPcb || s.state != NONE then ERR_CONN
               else if s.pcb == Fresh && mem && mbox then ERR_OK else ERR_MEM;
    AckSound(s, Op.Listen, err);
    var t := s.Ack(Op.Listen, err);
    PcbSound(t, LISTEN, Listening);
    PcbSound(t, NONE, NoPcb);
  }

  lemma PcbSound(s: Conn, state: NetState, pcb: Pcb)
    requires s.Sound()
    ensures s.(state := state, pcb := pcb).Sound()
  {
    hide Accounts;
  }

  lemma ConnectedValid(s: Conn, err: Err)
    requires s.Valid() && s.pcb == SynSent
    ensures s.Connected(err).Valid()
  {
    if s.Busy() { DoneSound(s, 0, err); }
    hide Accounts;
  }

  lemma SentValid(s: Conn, sndbuf: u16, mem: bool, writable: bool)
    requires s.Valid() && s.pcb != NoPcb && s.pcb != Listening
    ensures s.Sent(sndbuf, mem, writable).Valid()
  {
    hide Accounts;
    if s.state == WRITE {
      WriteMoreValid(s, sndbuf, mem);
      hide Conn.WriteMore;
    } else if s.state == CLOSE {
      CloseMoreValid(s, mem);
      hide Conn.CloseMore;
    }
  }

  lemma FailedValid(s: Conn, err: Err)
    requires s.Valid() && s.pcb != NoPcb && s.pcb != Listening && err != ERR_OK
    ensures s.Failed(err).Valid()
    ensures s.Failed(err).state == NONE && s.Failed(err).currentMsg == None
  {
    var t := s.(pcb := NoPcb, lastErr := err, state := NONE);
    assert t.Sound();
    if s.state != NONE && !s.inNonblockingConnect { DoneSound(t, s.Current().len, err); }
    hide Accounts;
  }

  /** Whatever message or callback comes, the state fits the pcb and the current message, there is a
      signal for each message that is not being worked on, and the bytes are accounted for. */
  lemma StepValid(s: Conn, e: Event)
    requires s.Valid() && Possible(s, e)
    ensures Step(s, e).Valid()
  {
    match e
    case DoWrite(data, isNull, dontblock, sndbuf, mem) => WriteValid(s, data, isNull, dontblock, sndbuf, mem);
    case DoClose(rd, wr, mem) => CloseValid(s, rd, wr, mem);
    case DoDelete(mem) => DeleteValid(s, mem);
    case DoConnect(err) => ConnectValid(s, err);
    case DoListen(mem, mbox) => ListenValid(s, mem, mbox);
    case Connected => ConnectedValid(s, ERR_OK);
    case Sent(sndbuf, mem, writable) => SentValid(s, sndbuf, mem, writable);
    case Failed(err) => FailedValid(s, err);
    case SetNonblocking(on) => FlagValid(s, on);
    case SafeErr(err) =>
  }

  lemma FlagValid(s: Conn, on: bool)
    requires s.Valid()
    ensures s.SetNonblocking(on).Valid()
  {
    forall i | 0 <= i < |s.msgs|
      ensures MsgOk(s.msgs[i], s.currentMsg == Some(i), s.writeOffset, s.wasNonblocking || on)
    {
      assert MsgOk(s.msgs[i], s.currentMsg == Some(i), s.writeOffset, s.wasNonblocking);
    }
  }

  // ---------------------------------------------------------------- what a step does to the messages

  /** The message an event brings. */
  function Asked(e: Event): seq<Op> {
    match e
    case DoWrite(data, isNull, dontblock, _, _) => [Op.Write(data, isNull, dontblock)]
    case DoClose(rd, wr, _) => [Op.Close(rd, wr)]
    case DoDelete(_) => [Op.Delete]
    case DoConnect(_) => [Op.Connect]
    case DoListen(_, _) => [Op.Listen]
    case _ => []
  }

  function AskedIn(es: seq<Event>): seq<Op> {
    if es == [] then [] else AskedIn(es[..|es| - 1]) + Asked(es[|es| - 1])
  }

  /** What a call of do_writemore() hands to TCP. */
  function Given(s: Conn, sndbuf: u16, mem: bool): seq<byte>
    requires s.Writing()
  {
    var off := s.writeOffset;
    if s.WriteResult(sndbuf, mem) == ERR_OK then s.Current().op.data[off..off + s.Portion(sndbuf)] else []
  }

  /** What an event makes tcp_write() accept. */
  function Accepted(s: Conn, e: Event): seq<byte> {
    match e
    case DoWrite(data, isNull, dontblock, sndbuf, mem) =>
      if IsFatal(s.lastErr) || s.state != NONE || s.pcb == NoPcb then []
      else Given(s.Begin(Op.Write(data, isNull, dontblock), |data|, WRITE), sndbuf, mem)
    case Sent(sndbuf, mem, _) => if s.Writing() then Given(s, sndbuf, mem) else []
    case _ => []
  }

  function AcceptedIn(s: Conn, es: seq<Event>): seq<byte> {
    if es == [] then []
    else AcceptedIn(s, es[..|es| - 1]) + Accepted(Run(s, es[..|es| - 1]), es[|es| - 1])
  }

  /** The messages of s are those r begins with, and all that were answered have the same answer. */
  ghost predicate Keeps(s: Conn, r: Conn) {
    && |s.msgs| <= |r.msgs|
    && forall i :: 0 <= i < |s.msgs| ==> r.msgs[i].op == s.msgs[i].op && (s.msgs[i].done ==> r.msgs[i] == s.msgs[i])
  }

  ghost predicate Ends(msgs: seq<Msg>, n: nat, ops: seq<Op>) {
    |msgs| == n + |ops| && forall i :: 0 <= i < |ops| ==> msgs[n + i].op == ops[i]
  }

  lemma WriteMoreKeeps(s: Conn, sndbuf: u16, mem: bool)
    requires s.Sound() && s.Writing()
    ensures var r := s.WriteMore(sndbuf, mem);
            Keeps(s, r) && |r.msgs| == |s.msgs| && r.stream == s.stream + Given(s, sndbuf, mem)
  {
    CurrentOk(s);
    WriteMoreOutcome(s, sndbuf, mem);
    hide Conn.Sound, Conn.WriteMore, Conn.WriteResult;
  }

  lemma CloseMoreKeeps(s: Conn, mem: bool)
    requires s.Sound() && s.Closing()
    ensures var r := s.CloseMore(mem); Keeps(s, r) && |r.msgs| == |s.msgs| && r.stream == s.stream
  {
    CurrentOk(s);
    hide Conn.Sound;
  }

  /** The message that comes is the last one, whatever is done with it at once. */
  lemma BegunKeeps(s: Conn, t: Conn, r: Conn, op: Op)
    requires Keeps(t, r) && |r.msgs| == |t.msgs| == |s.msgs| + 1 && t.msgs[..|s.msgs|] == s.msgs && t.msgs[|s.msgs|].op == op
    ensures Keeps(s, r) && Ends(r.msgs, |s.msgs|, [op])
  {
    forall i | 0 <= i < |s.msgs| ensures r.msgs[i].op == s.msgs[i].op && (s.msgs[i].done ==> r.msgs[i] == s.msgs[i]) {
      assert t.msgs[..|s.msgs|][i] == t.msgs[i];
    }
  }

  lemma WriteKeeps(s: Conn, e: Event)
    requires s.Valid() && Possible(s, e) && e.DoWrite?
    ensures var r := Step(s, e);
            Keeps(s, r) && Ends(r.msgs, |s.msgs|, Asked(e)) && r.stream == s.stream + Accepted(s, e)
  {
    hide Conn.Sound, Conn.WriteMore, Keeps, Ends, Given;
    var op := Op.Write(e.data, e.isNull, e.dontblock);
    if IsFatal(s.lastErr) || s.state != NONE || s.pcb == NoPcb {
      AckKeeps(s, op, if IsFatal(s.lastErr) then s.lastErr else if s.state != NONE then ERR_INPROGRESS else ERR_CONN);
      assert s.stream + [] == s.stream;
    } else {
      BeginSound(s, op, |e.data|, WRITE);
      var t := s.Begin(op, |e.data|, WRITE);
      WriteMoreKeeps(t, e.sndbuf, e.mem);
      BegunKeeps(s, t, t.WriteMore(e.sndbuf, e.mem), op);
    }
  }

  lemma AckKeeps(s: Conn, op: Op, err: Err)
    ensures var r := s.Ack(op, err); Keeps(s, r) && Ends(r.msgs, |s.msgs|, [op]) && r.stream == s.stream
  {
  }

  lemma CloseKeeps(s: Conn, op: Op, mem: bool)
    requires s.Sound() && s.currentMsg == None && (op.Close? || op.Delete?)
    ensures var r := s.Begin(op, 0, CLOSE).CloseMore(mem);
            Keeps(s, r) && Ends(r.msgs, |s.msgs|, [op]) && r.stream == s.stream
  {
    hide Conn.CloseMore, Keeps, Ends;
    BeginSound(s, op, 0, CLOSE);
    hide Conn.Sound;
    var t := s.Begin(op, 0, CLOSE);
    CloseMoreKeeps(t, mem);
    BegunKeeps(s, t, t.CloseMore(mem), op);
  }

  lemma CallbackKeeps(s: Conn, e: Event)
    requires s.Valid() && Possible(s, e) && (e.Connected? || e.Failed?)
    ensures var r := Step(s, e); Keeps(s, r) && Ends(r.msgs, |s.msgs|, []) && r.stream == s.stream
  {
    if s.Busy() { CurrentOk(s); }
    hide Conn.Sound;
  }

  lemma SentKeeps(s: Conn, sndbuf: u16, mem: bool, writable: bool)
    requires s.Valid()
    ensures var r := s.Sent(sndbuf, mem, writable);
            && Keeps(s, r) && Ends(r.msgs, |s.msgs|, [])
            && r.stream == s.stream + if s.Writing() then Given(s, sndbuf, mem) else []
  {
    assert s.stream + [] == s.stream;
    if s.Writing() {
      WriteMoreKeeps(s, sndbuf, mem);
    } else if s.Closing() {
      CloseMoreKeeps(s, mem);
    }
    hide Conn.Valid, Conn.WriteMore, Conn.CloseMore, Given;
  }

  lemma ControlStep(s: Conn, e: Event)
    ensures e.Sent? ==> Step(s, e) == s.Sent(e.sndbuf, e.mem, e.writable)
    ensures e.DoConnect? ==> Step(s, e) == s.Connect(e.err)
    ensures e.DoListen? ==> Step(s, e) == s.Listen(e.mem, e.mbox)
  {
  }

  lemma CloseOrDeleteKeeps(s: Conn, e: Event)
    requires s.Valid() && Possible(s, e) && (e.DoClose? || e.DoDelete?)
    ensures var r := Step(s, e); Keeps(s, r) && Ends(r.msgs, |s.msgs|, Asked(e)) && r.stream == s.stream
  {
    hide Conn.Sound, Conn.CloseMore, Keeps, Ends;
    var op := Asked(e)[0];
    AckKeeps(s, op, ERR_INPROGRESS);
    AckKeeps(s, op, ERR_VAL);
    AckKeeps(s, op, ERR_CONN);
    AckKeeps(s, op, ERR_OK);
    if s.state != WRITE && s.state != CLOSE && !(s.state == CONNECT && e.DoClose?) { CloseKeeps(s, op, e.mem); }
  }

  lemma ConnectKeeps(s: Conn, err: Err)
    ensures var r := s.Connect(err); Keeps(s, r) && Ends(r.msgs, |s.msgs|, [Op.Connect]) && r.stream == s.stream
  {
    hide Keeps, Ends;
    var r := s.Connect(err);
    var done := if s.pcb == NoPcb then ERR_CLSD else if s.state != NONE then ERR_ISCONN
                else if TcpConnect(s.pcb, err) != ERR_OK then TcpConnect(s.pcb, err) else ERR_INPROGRESS;
    if done == ERR_INPROGRESS && !s.nonblocking && s.pcb != NoPcb && TcpConnect(s.pcb, err) == ERR_OK {
      OnKeeps(s, r, Msg(Op.Connect, 0, ERR_OK, false, []));
    } else {
      OnKeeps(s, r, Msg(Op.Connect, 0, done, true, []));
    }
  }

  lemma ListenKeeps(s: Conn, mem: bool, mbox: bool)
    ensures var r := s.Listen(mem, mbox); Keeps(s, r) && Ends(r.msgs, |s.msgs|, [Op.Listen]) && r.stream == s.stream
  {
    hide Keeps, Ends;
    var err := if IsFatal(s.lastErr) then s.lastErr else if s.pcb == NoPcb || s.state != NONE then ERR_CONN
               else if s.pcb == Fresh && mem && mbox then ERR_OK else ERR_MEM;
    OnKeeps(s, s.Listen(mem, mbox), Msg(Op.Listen, 0, err, true, []));
  }

  lemma OnKeeps(s: Conn, r: Conn, m: Msg)
    requires r.msgs == s.msgs + [m]
    ensures Keeps(s, r) && Ends(r.msgs, |s.msgs|, [m.op])
  {
  }

  lemma FlagKeeps(s: Conn, e: Event)
    requires e.SetNonblocking? || e.SafeErr?
    ensures var r := Step(s, e); Keeps(s, r) && Ends(r.msgs, |s.msgs|, []) && r.stream == s.stream
  {
  }

  /** One event: its message is the new last one, nothing else is added, no answer that a thread has
      got is changed, and the stream grows by what tcp_write() accepted. */
  lemma StepKeeps(s: Conn, e: Event)
    requires s.Valid() && Possible(s, e)
    ensures var r := Step(s, e);
            Keeps(s, r) && Ends(r.msgs, |s.msgs|, Asked(e)) && r.stream == s.stream + Accepted(s, e)
  {
    hide Step, Keeps, Ends, Conn.Valid, Given;
    KeepsNothing(s);
    match e
    case DoWrite(_, _, _, _, _) => WriteKeeps(s, e);
    case DoClose(_, _, _) => CloseOrDeleteKeeps(s, e);
    case DoDelete(_) => CloseOrDeleteKeeps(s, e);
    case Sent(sndbuf, mem, writable) => SentKeeps(s, sndbuf, mem, writable); ControlStep(s, e);
    case Connected => CallbackKeeps(s, e);
    case Failed(_) => CallbackKeeps(s, e);
    case DoConnect(err) => ConnectKeeps(s, err); ControlStep(s, e);
    case DoListen(mem, mbox) => ListenKeeps(s, mem, mbox); ControlStep(s, e);
    case SetNonblocking(_) => FlagKeeps(s, e);
    case SafeErr(_) => FlagKeeps(s, e);
  }

  /** Over every run, in any interleaving of messages and callbacks: the invariant holds; every
      message has been handled in its turn; a message that was answered is not touched again; there
      is one signal for each message that is not being worked on; and TCP has got, in order, exactly
      what tcp_write() accepted. */
  lemma {:induction false} RunKeeps(s: Conn, es: seq<Event>)
    requires s.Valid() && PossibleRun(s, es)
    ensures var r := Run(s, es);
            && r.Valid() && Keeps(s, r) && Ends(r.msgs, |s.msgs|, AskedIn(es))
            && r.signals + (if r.currentMsg.Some? then 1 else 0) == |r.msgs|
            && r.stream == s.stream + AcceptedIn(s, es)
    decreases |es|
  {
    hide Conn.Valid, Step, Keeps, Ends, Possible, Accepted, Asked;
    SignalsOf(s);
    KeepsNothing(s);
    if es != [] {
      var before := es[..|es| - 1];
      assert forall i :: 0 <= i < |before| ==> before[..i] == es[..i];
      RunKeeps(s, before);
      var t := Run(s, before);
      var e := es[|es| - 1];
      StepValid(t, e);
      StepKeeps(t, e);
      RunOn(s, t, Step(t, e), AskedIn(before), Asked(e));
      assert (s.stream + AcceptedIn(s, before)) + Accepted(t, e) == s.stream + (AcceptedIn(s, before) + Accepted(t, e));
      SignalsOf(Step(t, e));
    }
  }

  lemma KeepsNothing(s: Conn)
    ensures Keeps(s, s) && Ends(s.msgs, |s.msgs|, []) && s.stream + [] == s.stream
  {
  }

  lemma SignalsOf(s: Conn)
    requires s.Valid()
    ensures s.signals + (if s.currentMsg.Some? then 1 else 0) == |s.msgs|
  {
  }

  lemma RunOn(s: Conn, t: Conn, r: Conn, ops: seq<Op>, more: seq<Op>)
    requires Keeps(s, t) && Keeps(t, r) && Ends(t.msgs, |s.msgs|, ops) && Ends(r.msgs, |t.msgs|, more)
    ensures Keeps(s, r) && Ends(r.msgs, |s.msgs|, ops + more)
  {
    forall i | 0 <= i < |ops + more| ensures r.msgs[|s.msgs| + i].op == (ops + more)[i] {
      if i >= |ops| { assert r.msgs[|t.msgs| + (i - |ops|)].op == more[i - |ops|]; }
    }
  }

  // ---------------------------------------------------------------- what that means for the threads

  /** What the invariant says of message i when it is a write: TCP has a first part of it, as one piece
      of all that was ever written; while the thread waits that part ends at write_offset; ERR_OK
      reports just what TCP has, and that is everything unless the write need not block. */
  lemma WriteOutcome(s: Conn, i: nat) returns (before: seq<byte>, after: seq<byte>)
    requires s.Valid() && i < |s.msgs| && s.msgs[i].op.Write?
    ensures var m := s.msgs[i];
            && m.sent <= m.op.data && s.stream == before + m.sent + after
            && (m.done <==> s.currentMsg != Some(i))
            && (!m.done ==> s.writeOffset < m.len == |m.op.data| && m.sent == m.op.data[..s.writeOffset] && after == [])
            && (m.done && m.err == ERR_OK ==> m.len == |m.sent|)
            && (m.done && m.err == ERR_OK && !m.op.dontblock && !s.wasNonblocking ==> m.sent == m.op.data)
  {
    assert MsgOk(s.msgs[i], s.currentMsg == Some(i), s.writeOffset, s.wasNonblocking);
    before, after := ConcatAround(s.msgs, i);
    if s.currentMsg == Some(i) {
      ConcatNone(s.msgs, i);
      assert before + s.msgs[i].sent + [] == before + s.msgs[i].sent;
      after := [];
    }
  }

  lemma {:induction false} ConcatAround(msgs: seq<Msg>, i: nat) returns (before: seq<byte>, after: seq<byte>)
    requires i < |msgs|
    ensures Concat(msgs) == before + msgs[i].sent + after && before == Concat(msgs[..i])
    decreases |msgs|
  {
    var n := |msgs| - 1;
    if i == n {
      before, after := Concat(msgs[..n]), [];
    } else {
      before, after := ConcatAround(msgs[..n], i);
      assert msgs[..n][..i] == msgs[..i];
      assert before + msgs[i].sent + after + msgs[n].sent == before + msgs[i].sent + (after + msgs[n].sent);
      after := after + msgs[n].sent;
    }
  }

  lemma {:induction false} ConcatNone(msgs: seq<Msg>, i: nat)
    requires i < |msgs| && forall j :: i < j < |msgs| ==> msgs[j].sent == []
    ensures Concat(msgs) == Concat(msgs[..i]) + msgs[i].sent
    decreases |msgs|
  {
    var n := |msgs| - 1;
    if i < n {
      ConcatNone(msgs[..n], i);
      assert msgs[..n][..i] == msgs[..i];
    }
  }

  /** Once the pcb has failed nobody waits any more: every message has its answer and its signal. */
  lemma FailedReleases(s: Conn, err: Err)
    requires s.Valid() && Possible(s, Failed(err))
    ensures var r := s.Failed(err);
            && r.signals == |r.msgs| && forall i :: 0 <= i < |r.msgs| ==> r.msgs[i].done
    ensures s.Busy() ==> s.Failed(err).msgs[s.currentMsg.value].err == err
  {
    FailedValid(s, err);
    var r := s.Failed(err);
    forall i | 0 <= i < |r.msgs| ensures r.msgs[i].done {
      assert MsgOk(r.msgs[i], r.currentMsg == Some(i), r.writeOffset, r.wasNonblocking);
    }
  }

  /** do_delconn() answers at once if and only if something else is going on or there is no pcb, or
      tcp_close() does not have to send a FIN for which there is no memory. While a non-blocking
      connect is going on it always succeeds, because tcp_close() does in SYN_SENT. */
  lemma DeleteExact(s: Conn, mem: bool)
    requires s.Valid() && Possible(s, DoDelete(mem))
    ensures var r := s.Delete(mem);
            var busy := s.state == WRITE || s.state == CLOSE;
            && (r.msgs[|s.msgs|].done <==> busy || s.pcb != Open || mem)
            && (busy ==> r == s.Ack(Op.Delete, ERR_INPROGRESS))
            && (!busy && r.msgs[|s.msgs|].done ==> r.pcb == NoPcb && r.msgs[|s.msgs|].err == ERR_OK)
            && (s.state == CONNECT ==> r.pcb == NoPcb && r.state == NONE && r.msgs[|s.msgs|].err == ERR_OK)
  {
    hide Conn.Sound;
  }

  // ---------------------------------------------------------------- a half close with nothing to close

  /** With memory for a FIN, do_close() on an idle netconn leaves the thread waiting if and only if it is
      to close only the sending side of a pcb that cannot send. */
  lemma HalfCloseExact(s: Conn, rd: bool, wr: bool)
    requires s.Valid() && s.state == NONE && s.pcb != NoPcb
    ensures var r := s.Close(rd, wr, true);
            && (r.msgs[|s.msgs|].done <==> !(wr && !rd && s.pcb != Open))
            && (!r.msgs[|s.msgs|].done ==> r.HalfClosing())
  {
    hide Conn.Sound;
  }

  /** ... and it waits for ever: whatever else comes, as long as the pcb does not fail. tcp_shutdown()
      answers ERR_CONN each time, which do_close_internal() takes for a lack of memory. */
  lemma {:induction false} HalfCloseForever(s: Conn, es: seq<Event>)
    requires s.Valid() && s.HalfClosing() && PossibleRun(s, es)
    requires forall i :: 0 <= i < |es| ==> !es[i].Failed?
    ensures var r := Run(s, es); r.HalfClosing() && r.currentMsg == s.currentMsg && !r.msgs[r.currentMsg.value].done
    decreases |es|
  {
    hide Step, Conn.Valid, Possible;
    RunKeeps(s, es);
    hide Keeps, Ends;
    HalfClosingWaits(Run(s, es));
    if es != [] {
      var before := es[..|es| - 1];
      assert forall i :: 0 <= i < |before| ==> before[..i] == es[..i];
      HalfCloseForever(s, before);
      RunKeeps(s, before);
      HalfCloseStays(Run(s, before), es[|es| - 1]);
    }
  }

  lemma HalfClosingWaits(s: Conn)
    requires s.Valid()
    ensures s.HalfClosing() ==> s.Busy() && !s.Current().done
  {
    if s.HalfClosing() { CurrentOk(s); }
  }

  lemma HalfCloseStays(s: Conn, e: Event)
    requires s.Valid() && Possible(s, e) && s.HalfClosing() && !e.Failed?
    ensures Step(s, e).HalfClosing() && Step(s, e).currentMsg == s.currentMsg
  {
    hide Conn.Sound, Conn.WriteMore;
  }

  // ---------------------------------------------------------------- nothing of an earlier write is left

  /** The netconn is made non-blocking while a blocking write waits that is accepted in part, and then
      there is no room or no memory: do_writemore() gives up on it. */
  predicate Interrupted(s: Conn, e: Event) {
    s.state == WRITE && s.writeOffset > 0 && s.nonblocking && e.Sent? && (e.sndbuf == 0 || !e.mem)
  }

  lemma SentIdle(s: Conn, sndbuf: u16, mem: bool, writable: bool)
    requires s.Valid() && s.Idle()
    ensures s.Sent(sndbuf, mem, writable).Idle() <==> !Interrupted(s, Event.Sent(sndbuf, mem, writable))
  {
    hide Conn.Sound;
    if s.state == WRITE { WriteMoreOutcome(s, sndbuf, mem); }
    hide Conn.WriteMore;
  }

  lemma WriteIdle(s: Conn, data: seq<byte>, isNull: bool, dontblock: bool, sndbuf: u16, mem: bool)
    requires s.Valid() && s.Idle()
    ensures s.Write(data, isNull, dontblock, sndbuf, mem).Idle()
  {
    hide Conn.Sound;
    var t := s.Begin(Op.Write(data, isNull, dontblock), |data|, WRITE);
    WriteMoreOutcome(t, sndbuf, mem);
    hide Conn.WriteMore;
  }

  /** Closing moves neither write_offset nor the flag. */
  lemma CloseIdle(s: Conn, e: Event)
    requires s.Valid() && Possible(s, e) && (e.DoClose? || e.DoDelete?)
    ensures var r := Step(s, e);
            && r.writeOffset == s.writeOffset && r.nonblocking == s.nonblocking
            && (r.state == WRITE <==> s.state == WRITE) && (s.pcb == NoPcb ==> r.pcb == NoPcb)
  {
    hide Conn.Sound;
    CloseMoreIdle(s.Begin(Asked(e)[0], 0, CLOSE), e.mem);
    hide Conn.CloseMore;
  }

  lemma CloseMoreIdle(s: Conn, mem: bool)
    requires s.Closing()
    ensures var r := s.CloseMore(mem);
            r.writeOffset == s.writeOffset && r.nonblocking == s.nonblocking && r.state != WRITE
  {
  }

  lemma OtherIdle(s: Conn, e: Event)
    requires s.Valid() && Possible(s, e) && (e.DoConnect? || e.DoListen? || e.Connected? || e.Failed?)
    ensures var r := Step(s, e);
            && r.writeOffset == s.writeOffset && r.nonblocking == s.nonblocking
            && (s.pcb == NoPcb ==> r.pcb == NoPcb) && (e.Failed? ==> r.pcb == NoPcb)
            && (!e.Failed? ==> (r.state == WRITE <==> s.state == WRITE))
  {
    hide Conn.Sound;
  }

  /** One event leaves nothing of an earlier write, if and only if it does not interrupt one. */
  lemma IdleExact(s: Conn, e: Event)
    requires s.Valid() && Possible(s, e) && s.Idle()
    ensures Step(s, e).Idle() <==> !Interrupted(s, e)
  {
    ControlStep(s, e);
    match e {
      case Sent(sndbuf, mem, writable) => SentIdle(s, sndbuf, mem, writable);
      case DoWrite(data, isNull, dontblock, sndbuf, mem) => WriteIdle(s, data, isNull, dontblock, sndbuf, mem);
      case DoClose(_, _, _) => CloseIdle(s, e);
      case DoDelete(_) => CloseIdle(s, e);
      case SetNonblocking(_) =>
      case SafeErr(_) =>
      case _ => OtherIdle(s, e);
    }
    hide Conn.Valid, Conn.Write, Conn.Sent, Conn.Close, Conn.Delete, Conn.Connect, Conn.Listen, Conn.Connected, Conn.Failed;
  }

  ghost predicate AlwaysIdle(s: Conn, es: seq<Event>) {
    forall i :: 0 <= i <= |es| ==> Run(s, es[..i]).Idle()
  }

  ghost predicate NeverInterrupted(s: Conn, es: seq<Event>) {
    forall i :: 0 <= i < |es| ==> !Interrupted(Run(s, es[..i]), es[i])
  }

  lemma PossibleOn(s: Conn, es: seq<Event>)
    requires es != [] && PossibleRun(s, es)
    ensures PossibleRun(s, es[..|es| - 1]) && Possible(Run(s, es[..|es| - 1]), es[|es| - 1])
  {
    hide Possible, Run;
    assert forall i :: 0 <= i < |es| - 1 ==> es[..|es| - 1][..i] == es[..i];
  }

  lemma IdleOn(s: Conn, es: seq<Event>)
    requires es != []
    ensures AlwaysIdle(s, es) <==> AlwaysIdle(s, es[..|es| - 1]) && Run(s, es).Idle()
    ensures AlwaysIdle(s, es[..|es| - 1]) ==> Run(s, es[..|es| - 1]).Idle()
  {
    hide Conn.Idle, Run;
    var before := es[..|es| - 1];
    assert es[..|es|] == es && before[..|before|] == before;
    if AlwaysIdle(s, es) {
      forall i | 0 <= i <= |before| ensures Run(s, before[..i]).Idle() { assert before[..i] == es[..i]; }
    }
    if AlwaysIdle(s, before) && Run(s, es).Idle() {
      forall i | 0 <= i <= |es| ensures Run(s, es[..i]).Idle() { assert i < |es| ==> before[..i] == es[..i]; }
    }
  }

  lemma InterruptedOn(s: Conn, es: seq<Event>)
    requires es != []
    ensures var n := |es| - 1;
            NeverInterrupted(s, es) <==> NeverInterrupted(s, es[..n]) && !Interrupted(Run(s, es[..n]), es[n])
  {
    hide Interrupted, Run;
    var n := |es| - 1;
    assert forall i :: 0 <= i < n ==> es[..n][..i] == es[..i] && es[..n][i] == es[i];
  }

  /** Over every run nothing of an earlier write is left when do_write(), do_close() or do_delconn()
      start, if and only if no blocking write was interrupted in that way. */
  lemma {:induction false} IdleRun(s: Conn, es: seq<Event>)
    requires s.Valid() && s.Idle() && PossibleRun(s, es)
    ensures AlwaysIdle(s, es) <==> NeverInterrupted(s, es)
    decreases |es|
  {
    hide Step, Conn.Valid, Conn.Idle, Interrupted, Possible;
    if es == [] {
      assert es[..0] == [];
    } else {
      hide AlwaysIdle, NeverInterrupted, PossibleRun, Keeps, Ends;
      var before := es[..|es| - 1];
      PossibleOn(s, es);
      IdleOn(s, es);
      InterruptedOn(s, es);
      IdleRun(s, before);
      RunKeeps(s, before);
      if AlwaysIdle(s, before) { IdleExact(Run(s, before), es[|es| - 1]); }
    }
  }

  /** That never happens as long as nobody makes the netconn non-blocking. */
  lemma {:induction false} BlockingIdle(s: Conn, es: seq<Event>)
    requires s.Valid() && s.Idle() && !s.nonblocking && PossibleRun(s, es)
    requires forall i :: 0 <= i < |es| ==> es[i] != SetNonblocking(true)
    ensures AlwaysIdle(s, es) && !Run(s, es).nonblocking
    decreases |es|
  {
    hide Conn.Valid, Conn.Idle, Possible;
    if es == [] {
      assert es[..0] == [];
    } else {
      hide AlwaysIdle, NeverInterrupted, PossibleRun, Keeps, Ends;
      var before := es[..|es| - 1];
      PossibleOn(s, es);
      IdleOn(s, es);
      InterruptedOn(s, es);
      BlockingIdle(s, before);
      RunKeeps(s, before);
      FlagKept(Run(s, before), es[|es| - 1]);
      hide Step;
      IdleExact(Run(s, before), es[|es| - 1]);
    }
  }

  lemma FlagKept(s: Conn, e: Event)
    requires s.Valid() && Possible(s, e) && !s.nonblocking && e != SetNonblocking(true)
    ensures !Step(s, e).nonblocking && !Interrupted(s, e)
  {
    hide Conn.Valid, Conn.Write, Conn.Close, Conn.Delete, Conn.Connect, Conn.Listen, Conn.Connected, Conn.Failed, Conn.Sent;
    match e {
      case Sent(sndbuf, mem, writable) => SentFlag(s, sndbuf, mem, writable);
      case DoWrite(data, isNull, dontblock, sndbuf, mem) => WriteFlag(s, data, isNull, dontblock, sndbuf, mem);
      case DoClose(_, _, _) => CloseIdle(s, e);
      case DoDelete(_) => CloseIdle(s, e);
      case SetNonblocking(_) =>
      case SafeErr(_) =>
      case _ => OtherIdle(s, e);
    }
  }

  lemma SentFlag(s: Conn, sndbuf: u16, mem: bool, writable: bool)
    ensures s.Sent(sndbuf, mem, writable).nonblocking == s.nonblocking
  {
    if s.Writing() { WriteMoreOutcome(s, sndbuf, mem); }
    hide Conn.WriteMore;
  }

  lemma WriteFlag(s: Conn, data: seq<byte>, isNull: bool, dontblock: bool, sndbuf: u16, mem: bool)
    ensures s.Write(data, isNull, dontblock, sndbuf, mem).nonblocking == s.nonblocking
  {
    WriteMoreOutcome(s.Begin(Op.Write(data, isNull, dontblock), |data|, WRITE), sndbuf, mem);
    hide Conn.WriteMore;
  }

  /** A netconn with a new pcb, or with one from accept(). */
  function Start(pcb: Pcb): Conn {
    Conn(NONE, pcb, None, 0, false, false, false, ERR_OK, 0, [], [], false)
  }

  lemma StartValid(pcb: Pcb)
    requires pcb == Fresh || pcb == Open
    ensures Start(pcb).Valid() && Start(pcb).Idle()
  {
  }

  /** The shortest such run: of two bytes one is accepted, the netconn is made non-blocking, and the
      next callback finds no room. The write fails with ERR_WOULDBLOCK although TCP has its first
      byte, and write_offset is left at 1, where do_write() and do_close() assert 0. */
  lemma InterruptedWrite(a: byte, b: byte)
    ensures var es := [DoWrite([a, b], false, false, 1, true), SetNonblocking(true), Sent(0, true, false)];
            var r := Run(Start(Open), es);
            && PossibleRun(Start(Open), es) && !r.Idle() && r.state == NONE && r.pcb == Open && r.writeOffset == 1
            && r.stream == [a] && r.msgs == [Msg(Op.Write([a, b], false, false), 0, ERR_WOULDBLOCK, true, [a])]
  {
    var es := [DoWrite([a, b], false, false, 1, true), SetNonblocking(true), Sent(0, true, false)];
    var s := Start(Open);
    assert es[..0] == [] && es[..1][..0] == [] && es[..2][..1] == es[..1] && es[..3] == es && es[..3][..2] == es[..2];
    var s1 := s.Write([a, b], false, false, 1, true);
    assert s1.state == WRITE && s1.currentMsg == Some(0) && s1.writeOffset == 1 && s1.pcb == Open && s1.stream == [a]
           && s1.msgs == [Msg(Op.Write([a, b], false, false), 2, ERR_OK, false, [a])] by {
      assert [a, b][0..1] == [a];
    }
    assert Run(s, es[..0]) == s;
    assert Run(s, es[..1]) == s1;
    assert Run(s, es[..2]) == s1.SetNonblocking(true);
    hide Conn.Write;
  }

  // ---------------------------------------------------------------- the netconn itself

  /** struct netconn */
  class NetConn {
    var state: NetState
    var pcb: Pcb
    var currentMsg: Option<nat>
    var writeOffset: nat
    var nonblocking: bool
    var inNonblockingConnect: bool
    var checkWritespace: bool
    var lastErr: Err
    var signals: nat
    var msgs: seq<Msg>
    ghost var stream: seq<byte>
    ghost var wasNonblocking: bool

    ghost function View(): Conn
      reads this
    {
      Conn(state, pcb, currentMsg, writeOffset, nonblocking, inNonblockingConnect, checkWritespace, lastErr,
           signals, msgs, stream, wasNonblocking)
    }

    constructor (pcb: Pcb)
      requires pcb == Fresh || pcb == Open
      ensures View() == Start(pcb) && View().Valid() && View().Idle()
    {
      state, this.pcb, currentMsg, writeOffset := NONE, pcb, None, 0;
      nonblocking, inNonblockingConnect, checkWritespace := false, false, false;
      lastErr, signals, msgs, stream, wasNonblocking := ERR_OK, 0, [], [], false;
      new;
      StartValid(pcb);
    }

    /** TCPIP_APIMSG_ACK() */
    method Ack(op: Op, err: Err)
      modifies `msgs, `signals
      ensures View() == old(View()).Ack(op, err)
    {
      msgs := msgs + [Msg(op, 0, err, true, [])];
      signals := signals + 1;
    }

    method Complete(len: nat, err: Err)
      requires View().Busy()
      modifies `msgs, `currentMsg, `state, `signals
      ensures View() == old(View()).Complete(len, err)
    {
      var c := currentMsg.value;
      msgs := msgs[c := msgs[c].(len := len, err := err, done := true)];
      currentMsg := None;
      state := NONE;
      signals := signals + 1;
    }

    /** tcp_write() succeeded. */
    method Accept(k: nat)
      requires View().Writing() && writeOffset + k <= View().Current().len
      modifies `msgs, `currentMsg, `state, `signals, `stream, `writeOffset
      ensures View() == old(View()).Accept(k)
    {
      var c := currentMsg.value;
      var m := msgs[c];
      ghost var more := m.op.data[writeOffset..writeOffset + k];
      msgs := msgs[c := m.(sent := m.sent + m.op.data[writeOffset..writeOffset + k])];
      stream := stream + more;
      writeOffset := writeOffset + k;
      if writeOffset == m.len || nonblocking || m.op.dontblock {
        Complete(writeOffset, ERR_OK);
        writeOffset := 0;
      }
    }

    /** How much do_writemore() tries to write, and what comes of it. */
    method TryWrite(sndbuf: u16, mem: bool) returns (len: nat, err: Err)
      requires View().Writing()
      ensures len == View().Portion(sndbuf) && err == View().WriteResult(sndbuf, mem)
    {
      var m := msgs[currentMsg.value];
      var diff := m.len - writeOffset;
      len := if diff > 0xFFFF then 0xFFFF else diff;
      if sndbuf < len {
        len := sndbuf;
        if (nonblocking || m.op.dontblock) && len == 0 {
          err := ERR_WOULDBLOCK;
          return;
        }
      }
      err := TcpWrite(pcb, m.op.isNull && writeOffset == 0, len, mem);
    }

    /** do_writemore() */
    method DoWritemore(sndbuf: u16, mem: bool)
      requires View().Writing()
      modifies this
      ensures View() == old(View()).WriteMore(sndbuf, mem)
    {
      hide Conn.Accept, Conn.Complete, Conn.Portion, Conn.WriteResult;
      var m := msgs[currentMsg.value];
      var dontblock := nonblocking || m.op.dontblock;
      var len, err := TryWrite(sndbuf, mem);
      if (err == ERR_OK || err == ERR_MEM || err == ERR_WOULDBLOCK) && dontblock && len < m.len {
        checkWritespace := true;
      }
      assert View() == old(View()).(checkWritespace := checkWritespace);
      if err == ERR_OK {
        Accept(len);
      } else if err == ERR_MEM && !dontblock {
        // wait for sent_tcp() or poll_tcp()
      } else {
        Complete(0, err);
      }
    }

    /** do_write() */
    method DoWrite(data: seq<byte>, isNull: bool, dontblock: bool, sndbuf: u16, mem: bool)
      modifies this
      ensures View() == old(View()).Write(data, isNull, dontblock, sndbuf, mem)
    {
      hide Conn.WriteMore;
      var op := Op.Write(data, isNull, dontblock);
      if IsFatal(lastErr) {
        Ack(op, lastErr);
      } else if state != NONE {
        Ack(op, ERR_INPROGRESS);
      } else if pcb != NoPcb {
        state := WRITE;
        currentMsg := Some(|msgs|);
        msgs := msgs + [Msg(op, |data|, ERR_OK, false, [])];
        writeOffset := 0;
        DoWritemore(sndbuf, mem);
      } else {
        Ack(op, ERR_CONN);
      }
    }

    /** do_close_internal() */
    method DoCloseInternal(mem: bool)
      requires View().Closing()
      modifies this
      ensures View() == old(View()).CloseMore(mem)
    {
      var m := msgs[currentMsg.value];
      var close := IsRdWr(m.op);
      var err := if close then TcpClose(pcb, mem) else TcpShutdown(pcb, m.op.rd, m.op.wr, mem);
      if err == ERR_OK {
        Complete(m.len, ERR_OK);
        if close {
          pcb := NoPcb;
        } else if m.op.wr {
          pcb := Shut;
        }
      }
    }

    /** do_close() */
    method DoClose(rd: bool, wr: bool, mem: bool)
      modifies this
      ensures View() == old(View()).Close(rd, wr, mem)
    {
      hide Conn.CloseMore;
      var op := Op.Close(rd, wr);
      if state != NONE && state != LISTEN {
        Ack(op, ERR_INPROGRESS);
      } else if pcb != NoPcb {
        if !(rd && wr) && state == LISTEN {
          Ack(op, ERR_CONN);
        } else {
          state := CLOSE;
          currentMsg := Some(|msgs|);
          msgs := msgs + [Msg(op, 0, ERR_OK, false, [])];
          DoCloseInternal(mem);
        }
      } else {
        Ack(op, ERR_VAL);
      }
    }

    /** do_delconn() */
    method DoDelconn(mem: bool)
      modifies this
      ensures View() == old(View()).Delete(mem)
    {
      hide Conn.CloseMore;
      if state != NONE && state != LISTEN && state != CONNECT {
        Ack(Op.Delete, ERR_INPROGRESS);
      } else if pcb != NoPcb {
        state := CLOSE;
        currentMsg := Some(|msgs|);
        msgs := msgs + [Msg(Op.Delete, 0, ERR_OK, false, [])];
        DoCloseInternal(mem);
      } else {
        Ack(Op.Delete, ERR_OK);
      }
    }

    /** do_connect() */
    method DoConnect(err: Err)
      modifies this
      ensures View() == old(View()).Connect(err)
    {
      if pcb == NoPcb {
        Ack(Op.Connect, ERR_CLSD);
      } else if state != NONE {
        Ack(Op.Connect, ERR_ISCONN);
      } else {
        var result := TcpConnect(pcb, err);
        if result == ERR_OK {
          pcb := SynSent;
          state := CONNECT;
          inNonblockingConnect := nonblocking;
          if nonblocking {
            Ack(Op.Connect, ERR_INPROGRESS);
          } else {
            currentMsg := Some(|msgs|);
            msgs := msgs + [Msg(Op.Connect, 0, ERR_OK, false, [])];
          }
        } else {
          Ack(Op.Connect, result);
        }
      }
    }

    /** do_listen() */
    method DoListen(mem: bool, mbox: bool)
      modifies this
      ensures View() == old(View()).Listen(mem, mbox)
    {
      var err := ERR_CONN;
      if IsFatal(lastErr) {
        err := lastErr;
      } else if pcb != NoPcb && state == NONE {
        if pcb != Fresh || !mem {
          err := ERR_MEM;
        } else if mbox {
          err := ERR_OK;
          state := LISTEN;
          pcb := Listening;
        } else {
          err := ERR_MEM;
          pcb := NoPcb;
        }
      }
      Ack(Op.Listen, err);
    }

    /** do_connected() */
    method DoConnected(err: Err)
      requires View().Valid() && pcb == SynSent
      modifies this
      ensures View() == old(View()).Connected(err)
    {
      hide Conn.Sound;
      var wasBlocking := !inNonblockingConnect;
      if currentMsg.Some? {
        Complete(0, err);
      }
      inNonblockingConnect := false;
      state := NONE;
      pcb := Open;
      if !wasBlocking && !IsFatal(lastErr) {
        lastErr := ERR_OK;
      }
    }

    /** sent_tcp() and poll_tcp() */
    method SentTcp(sndbuf: u16, mem: bool, writable: bool)
      requires View().Valid()
      modifies this
      ensures View() == old(View()).Sent(sndbuf, mem, writable)
    {
      hide Conn.Sound, Conn.WriteMore, Conn.CloseMore;
      if state == WRITE {
        DoWritemore(sndbuf, mem);
      } else if state == CLOSE {
        DoCloseInternal(mem);
      }
      if pcb != NoPcb && writable {
        checkWritespace := false;
      }
    }

    /** err_tcp() */
    method ErrTcp(err: Err)
      requires View().Valid()
      modifies this
      ensures View() == old(View()).Failed(err)
    {
      hide Conn.Sound;
      pcb := NoPcb;
      lastErr := err;
      var oldState := state;
      state := NONE;
      if oldState == WRITE || oldState == CLOSE || oldState == CONNECT {
        var wasNonblockingConnect := inNonblockingConnect;
        inNonblockingConnect := false;
        if !wasNonblockingConnect {
          Complete(msgs[currentMsg.value].len, err);
        }
      }
    }

    /** One message or callback. */
    method Handle(e: Event)
      requires View().Valid() && Possible(View(), e)
      modifies this
      ensures View() == Step(old(View()), e)
    {
      hide Conn.Valid, Conn.Write, Conn.Close, Conn.Delete, Conn.Connect, Conn.Listen, Conn.Connected, Conn.Sent, Conn.Failed;
      match e
      case DoWrite(data, isNull, dontblock, sndbuf, mem) => DoWrite(data, isNull, dontblock, sndbuf, mem);
      case DoClose(rd, wr, mem) => DoClose(rd, wr, mem);
      case DoDelete(mem) => DoDelconn(mem);
      case DoConnect(err) => DoConnect(err);
      case DoListen(mem, mbox) => DoListen(mem, mbox);
      case Connected => DoConnected(ERR_OK);
      case Sent(sndbuf, mem, writable) => SentTcp(sndbuf, mem, writable);
      case Failed(err) => ErrTcp(err);
      case SetNonblocking(on) =>
        nonblocking := on;
        wasNonblocking := wasNonblocking || on;
      case SafeErr(err) =>
        if !IsFatal(lastErr) {
          lastErr := err;
        }
    }

    /** A whole run on one netconn: at the end every message has been handled, all but the current one
        have been answered and signalled once, no earlier answer has changed, and TCP has, in order, the
        bytes its tcp_write() accepted. */
    method Serve(es: seq<Event>)
      requires View().Valid() && PossibleRun(View(), es)
      modifies this
      ensures View() == Run(old(View()), es) && View().Valid() && Keeps(old(View()), View())
      ensures Ends(msgs, |old(msgs)|, AskedIn(es)) && stream == old(stream) + AcceptedIn(old(View()), es)
      ensures signals + (if currentMsg.Some? then 1 else 0) == |msgs|
    {
      hide Step, Run, Conn.Valid, PossibleRun, Possible, Keeps, Ends;
      ghost var s := View();
      RunTo(s, es, 0);
      var i := 0;
      while i < |es|
        invariant i <= |es| && View() == Run(s, es[..i])
      {
        RunTo(s, es, i);
        Handle(es[i]);
        i := i + 1;
      }
      assert es[..|es|] == es;
      RunKeeps(s, es);
    }
  }

  lemma RunTo(s: Conn, es: seq<Event>, i: nat)
    requires s.Valid() && PossibleRun(s, es) && i <= |es|
    ensures Run(s, es[..i]).Valid() && Run(s, es[..0]) == s
    ensures i < |es| ==> Possible(Run(s, es[..i]), es[i]) && Run(s, es[..i + 1]) == Step(Run(s, es[..i]), es[i])
  {
    hide Step, Conn.Valid, Possible, Keeps, Ends;
    assert forall j :: 0 <= j < i ==> es[..i][..j] == es[..j];
    RunKeeps(s, es[..i]);
    if i < |es| { assert es[..i + 1][..i] == es[..i]; }
  }
}
