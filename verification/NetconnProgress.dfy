/** No thread waits for longer than it must: what the callbacks of lwip/api/api_msg.c do with a pending
    message, and what a message is answered at once. */
module NetconnProgress {
  import opened Common
  import opened SeqNum
  import opened Netconn

  // ---------------------------------------------------------------- the callbacks

  /** The thread that waited for message c has its answer and its signal. */
  predicate Released(s: Conn, r: Conn, c: nat, err: Err, len: nat) {
    && r.state == NONE && r.currentMsg == None && r.signals == s.signals + 1
    && c < |r.msgs| && r.msgs[c].done && r.msgs[c].err == err && r.msgs[c].len == len
  }

  /** The thread still waits, and nothing has changed but the flag for select(). */
  predicate SameBut(s: Conn, r: Conn) {
    r == s.(checkWritespace := r.checkWritespace)
  }

  /** tcp_close() and tcp_shutdown() send a FIN. */
  predicate NeedsFin(s: Conn)
    requires s.Closing()
  {
    s.pcb == Open && (s.Current().op.Delete? || s.Current().op.wr)
  }

  /** sent_tcp() and poll_tcp() go on with a pending close. They finish it and release the thread, if and
      only if it is not a half close of a pcb that cannot send, and no FIN is needed or there is memory
      for one. */
  lemma SentCloses(s: Conn, sndbuf: u16, mem: bool, writable: bool)
    requires s.Valid() && s.Closing()
    ensures var r, m := s.Sent(sndbuf, mem, writable), s.Current();
            if !s.HalfClosing() && (mem || !NeedsFin(s)) then
              && Released(s, r, s.currentMsg.value, ERR_OK, m.len)
              && r.pcb == if IsRdWr(m.op) then NoPcb else if m.op.wr then Shut else s.pcb
            else SameBut(s, r)
  {
    hide Conn.Sound;
  }

  /** They go on with a pending write: as much as fits is handed over at once. The thread is released
      when that was all, or if the netconn does not block any more. */
  lemma SentWrites(s: Conn, sndbuf: u16, mem: bool, writable: bool)
    requires s.Valid() && s.state == WRITE
    ensures var r, m, off := s.Sent(sndbuf, mem, writable), s.Current(), s.writeOffset;
            var k := Min(m.len - off, sndbuf);
            if k > 0 && mem then
              && r.stream == s.stream + m.op.data[off..off + k]
              && (if off + k == m.len || s.nonblocking then Released(s, r, s.currentMsg.value, ERR_OK, off + k)
                  else r.state == WRITE && r.currentMsg == s.currentMsg && r.writeOffset == off + k && !r.Current().done)
            else
              && r.stream == s.stream
              && (if s.nonblocking then Released(s, r, s.currentMsg.value, if k == 0 then ERR_WOULDBLOCK else ERR_MEM, 0)
                  else SameBut(s, r))
  {
    CurrentOk(s);
    hide Conn.Sound;
    WriteMoreOutcome(s, sndbuf, mem);
    Answer(s, sndbuf, mem);
    if (sndbuf == 0 || !mem) && !s.nonblocking { WaitsSame(s, sndbuf, mem); }
    assert s.stream + [] == s.stream;
    hide Conn.WriteMore, Conn.WriteResult, MsgOk;
  }

  /** What tcp_write() answers while a write is pending. */
  lemma Answer(s: Conn, sndbuf: u16, mem: bool)
    requires s.Valid() && s.state == WRITE
    ensures s.Portion(sndbuf) == Min(s.Current().len - s.writeOffset, sndbuf) && s.Writing() && s.DontBlock() == s.nonblocking
    ensures s.WriteResult(sndbuf, mem) == if s.Portion(sndbuf) == 0 then if s.nonblocking then ERR_WOULDBLOCK else ERR_OK
                                          else if mem then ERR_OK else ERR_MEM
  {
    hide Conn.Sound;
  }

  lemma WaitsSame(s: Conn, sndbuf: u16, mem: bool)
    requires s.Valid() && s.state == WRITE && !s.nonblocking && (sndbuf == 0 || !mem)
    ensures s.WriteMore(sndbuf, mem) == s
  {
    hide Conn.Sound;
    var m, off := s.Current(), s.writeOffset;
    assert m.op.data[off..off] == [] && s.stream + [] == s.stream && m.sent + [] == m.sent;
    assert s.msgs[s.currentMsg.value := m] == s.msgs;
  }

  /** do_connected(): a thread that waits for the connection is released; after a non-blocking connect
      nobody waits, and the pending error is cleared unless it is fatal. */
  lemma ConnectedReleases(s: Conn)
    requires s.Valid() && s.pcb == SynSent
    ensures var r := s.Connected(ERR_OK);
            && r.pcb == Open && r.state == NONE && !r.inNonblockingConnect
            && (s.currentMsg.Some? ==> Released(s, r, s.currentMsg.value, ERR_OK, 0) && r.lastErr == s.lastErr)
            && (s.currentMsg == None ==> r.msgs == s.msgs && r.signals == s.signals)
            && (s.currentMsg == None ==> r.lastErr == if IsFatal(s.lastErr) then s.lastErr else ERR_OK)
  {
    hide Conn.Sound;
  }

  // ---------------------------------------------------------------- how long a thread waits

  /** A callback that finds room in the send buffer and memory. */
  predicate Room(e: Event) { e.Sent? && e.sndbuf > 0 && e.mem }

  function Rooms(es: seq<Event>): nat {
    if es == [] then 0 else Rooms(es[..|es| - 1]) + if Room(es[|es| - 1]) then 1 else 0
  }

  /** Message c is a write that is handed over completely, or it is being worked on and at least `from`
      bytes are. */
  ghost predicate Handed(s: Conn, c: nat, from: int) {
    && c < |s.msgs| && s.msgs[c].op.Write?
    && if s.msgs[c].done then s.msgs[c].err == ERR_OK && s.msgs[c].sent == s.msgs[c].op.data
       else s.state == WRITE && s.currentMsg == Some(c) && !s.nonblocking && from <= s.writeOffset
  }

  lemma HandedOn(s: Conn, e: Event, c: nat, from: int)
    requires s.Valid() && Possible(s, e) && Handed(s, c, from) && !e.Failed? && e != SetNonblocking(true)
    ensures Handed(Step(s, e), c, from + if Room(e) then 1 else 0)
  {
    hide Conn.Valid, Keeps, Ends;
    StepKeeps(s, e);
    if s.msgs[c].done {
      DoneStays(s, Step(s, e), c);
    } else if e.Sent? {
      HandedSent(s, e, c);
    } else {
      hide Step;
      Untouched(s, e, c);
    }
  }

  lemma HandedSent(s: Conn, e: Event, c: nat)
    requires s.Valid() && Possible(s, e) && Handed(s, c, s.writeOffset) && !s.msgs[c].done && e.Sent?
    ensures Handed(Step(s, e), c, s.writeOffset + if Room(e) then 1 else 0)
  {
    SentWrites(s, e.sndbuf, e.mem, e.writable);
    var r := s.Sent(e.sndbuf, e.mem, e.writable);
    OpKept(s, r, c, e);
    if r.currentMsg == None { AllSent(s, r, c, e); } else { FlagKept(s, e); }
    hide Conn.Valid, Conn.Sent;
  }

  lemma OpKept(s: Conn, r: Conn, c: nat, e: Event)
    requires s.Valid() && Possible(s, e) && r == Step(s, e) && c < |s.msgs|
    ensures c < |r.msgs| && r.msgs[c].op == s.msgs[c].op
  {
    StepKeeps(s, e);
  }

  /** The last part has been handed over. */
  lemma AllSent(s: Conn, r: Conn, c: nat, e: Event)
    requires s.Valid() && Possible(s, e) && r == Step(s, e) && s.currentMsg == Some(c) && s.msgs[c].op.Write?
    requires r.currentMsg == None && c < |r.msgs| && r.msgs[c].err == ERR_OK && r.msgs[c].len == |s.msgs[c].op.data|
    ensures r.msgs[c].done && r.msgs[c].sent == s.msgs[c].op.data
  {
    StepValid(s, e);
    StepKeeps(s, e);
    assert r.msgs[c].op == s.msgs[c].op;
    var before, after := WriteOutcome(r, c);
  }

  /** While a write is being worked on all other messages are refused. */
  lemma Untouched(s: Conn, e: Event, c: nat)
    requires s.Valid() && Possible(s, e) && s.state == WRITE && s.currentMsg == Some(c)
    requires !e.Failed? && !e.Sent? && e != SetNonblocking(true)
    ensures var r := Step(s, e);
            && r.state == WRITE && r.currentMsg == Some(c) && r.writeOffset == s.writeOffset
            && c < |r.msgs| && r.msgs[c] == s.msgs[c] && (r.nonblocking ==> s.nonblocking)
  {
    hide Conn.Sound, Conn.WriteMore, Conn.CloseMore;
  }

  lemma RoomsOn(es: seq<Event>)
    requires es != []
    ensures Rooms(es) == Rooms(es[..|es| - 1]) + if Room(es[|es| - 1]) then 1 else 0
  {
  }

  /** The pcb does not fail, and nobody makes the netconn non-blocking. */
  ghost predicate Undisturbed(es: seq<Event>) {
    forall i :: 0 <= i < |es| ==> !es[i].Failed? && es[i] != SetNonblocking(true)
  }

  lemma UndisturbedOn(es: seq<Event>)
    requires es != [] && Undisturbed(es)
    ensures Undisturbed(es[..|es| - 1]) && !es[|es| - 1].Failed? && es[|es| - 1] != SetNonblocking(true)
  {
  }

  lemma {:induction false} HandedRun(s: Conn, es: seq<Event>, c: nat, from: int)
    requires s.Valid() && PossibleRun(s, es) && Undisturbed(es) && Handed(s, c, from)
    ensures Handed(Run(s, es), c, from + Rooms(es))
    decreases |es|
  {
    hide Step, Possible, Room, Rooms, PossibleRun, Handed, Conn.Valid, Undisturbed;
    if es != [] {
      var before := es[..|es| - 1];
      PossibleOn(s, es);
      UndisturbedOn(es);
      HandedRun(s, before, c, from);
      RunValid(s, before);
      HandedOn(Run(s, before), es[|es| - 1], c, from + Rooms(before));
      RoomsOn(es);
    } else {
      NoRooms();
    }
  }

  lemma RunValid(s: Conn, es: seq<Event>)
    requires s.Valid() && PossibleRun(s, es)
    ensures Run(s, es).Valid()
  {
    hide Conn.Valid, Run, PossibleRun;
    RunKeeps(s, es);
  }

  /** A blocking write is through, with ERR_OK and all its data in the hands of TCP, after no more
      callbacks that find room than it has bytes left: whatever else comes, as long as the pcb does not
      fail and nobody makes the netconn non-blocking. */
  lemma WriteCompletes(s: Conn, es: seq<Event>)
    requires s.Valid() && s.state == WRITE && !s.nonblocking && PossibleRun(s, es) && Undisturbed(es)
    ensures Handed(Run(s, es), s.currentMsg.value, s.writeOffset + Rooms(es))
    ensures Rooms(es) >= s.Current().len - s.writeOffset ==>
              var m := Run(s, es).msgs[s.currentMsg.value]; m.done && m.err == ERR_OK && m.sent == s.Current().op.data
  {
    hide Possible, Room, Rooms, PossibleRun, Keeps, Ends, Handed, Conn.Valid, Undisturbed, Run;
    var c := StartsHanded(s);
    HandedRun(s, es, c, s.writeOffset);
    RunKeeps(s, es);
    HandedThere(Run(s, es), c, s.writeOffset + Rooms(es));
    if Rooms(es) >= s.Current().len - s.writeOffset { AtEnd(s, Run(s, es), c, s.writeOffset + Rooms(es)); }
  }

  lemma HandedThere(s: Conn, c: nat, from: int)
    requires Handed(s, c, from)
    ensures c < |s.msgs|
  {
  }

  lemma NoRooms()
    ensures Rooms([]) == 0
  {
  }

  lemma StartsHanded(s: Conn) returns (c: nat)
    requires s.Valid() && s.state == WRITE && !s.nonblocking
    ensures s.Busy() && s.currentMsg == Some(c) && Handed(s, c, s.writeOffset) && s.Current().op.Write?
  {
    CurrentOk(s);
    c := s.currentMsg.value;
    hide Conn.Sound;
  }

  lemma AtEnd(s: Conn, r: Conn, c: nat, from: int)
    requires s.Valid() && r.Valid() && Keeps(s, r) && Handed(r, c, from) && c < |s.msgs| && s.currentMsg == Some(c)
    requires s.state == WRITE && from >= s.Current().len
    ensures r.msgs[c].done && r.msgs[c].err == ERR_OK && r.msgs[c].sent == s.Current().op.data
  {
    CurrentOk(s);
    if !r.msgs[c].done { CurrentOk(r); }
  }

  /** Message c is a close that is through, or still being worked on. */
  ghost predicate Shutting(s: Conn, c: nat) {
    && c < |s.msgs|
    && if s.msgs[c].done then s.msgs[c].err == ERR_OK else s.Closing() && s.currentMsg == Some(c) && !s.HalfClosing()
  }

  lemma ShuttingOn(s: Conn, e: Event, c: nat)
    requires s.Valid() && Possible(s, e) && Shutting(s, c) && !e.Failed?
    ensures Shutting(Step(s, e), c)
    ensures e.Sent? && e.mem ==> Step(s, e).msgs[c].done
  {
    StepKeeps(s, e);
    hide Keeps, Ends, Conn.Valid;
    if s.msgs[c].done {
      DoneStays(s, Step(s, e), c);
    } else if e.Sent? {
      SentCloses(s, e.sndbuf, e.mem, e.writable);
    } else {
      hide Step;
      CloseWaits(s, e, c);
    }
  }

  /** While a close waits all other messages are refused. */
  lemma CloseWaits(s: Conn, e: Event, c: nat)
    requires s.Valid() && Possible(s, e) && s.Closing() && !s.HalfClosing() && s.currentMsg == Some(c)
    requires !e.Failed? && !e.Sent? && c < |s.msgs| && !s.msgs[c].done
    ensures Shutting(Step(s, e), c)
  {
    hide Conn.Sound, Conn.WriteMore, Conn.CloseMore;
  }

  lemma DoneStays(s: Conn, r: Conn, c: nat)
    requires Keeps(s, r) && c < |s.msgs| && s.msgs[c].done
    ensures c < |r.msgs| && r.msgs[c] == s.msgs[c]
  {
  }

  /** A close that waits for memory is through with the first callback that finds some, whatever comes
      before and after, as long as the pcb does not fail. (A half close of a pcb that cannot send is never
      through: HalfCloseForever.) */
  lemma {:induction false} CloseCompletes(s: Conn, es: seq<Event>)
    requires s.Valid() && s.Closing() && !s.HalfClosing() && PossibleRun(s, es)
    requires forall i :: 0 <= i < |es| ==> !es[i].Failed?
    ensures var r, c := Run(s, es), s.currentMsg.value;
            && Shutting(r, c)
            && ((exists i :: 0 <= i < |es| && es[i].Sent? && es[i].mem) ==> r.msgs[c].done && r.msgs[c].err == ERR_OK)
    decreases |es|
  {
    hide Step, Possible, PossibleRun, Keeps, Ends, Conn.Valid;
    var c := s.currentMsg.value;
    if es == [] {
      NotDone(s);
    } else {
      var before, e, t := es[..|es| - 1], es[|es| - 1], Run(s, es[..|es| - 1]);
      PossibleOn(s, es);
      CloseCompletes(s, before);
      RunKeeps(s, before);
      ShuttingOn(t, e, c);
      StepKeeps(t, e);
      if t.msgs[c].done { DoneStays(t, Step(t, e), c); }
      forall i | 0 <= i < |es| && es[i].Sent? && es[i].mem ensures Run(s, es).msgs[c].done {
        if i < |before| { assert before[i] == es[i]; }
      }
    }
  }

  lemma NotDone(s: Conn)
    requires s.Valid() && s.Closing()
    ensures !s.Current().done
  {
    CurrentOk(s);
  }

  // ---------------------------------------------------------------- what a message is answered at once

  /** The message was answered and changed nothing else. */
  ghost predicate Refused(s: Conn, r: Conn, op: Op, err: Err) {
    r == s.(msgs := s.msgs + [Msg(op, 0, err, true, [])], signals := s.signals + 1)
  }

  /** The message is the current one, and its thread waits. */
  ghost predicate Waiting(s: Conn, r: Conn, state: NetState) {
    && r.state == state && r.currentMsg == Some(|s.msgs|) && r.signals == s.signals
    && |s.msgs| < |r.msgs| && !r.msgs[|s.msgs|].done
  }

  /** do_write() refuses while an error is pending that is fatal, or something else is going on, or there
      is no pcb. Otherwise it hands over as much as fits, or fails as tcp_write() does; a thread that may
      block waits for the rest. */
  lemma WriteAnswered(s: Conn, data: seq<byte>, isNull: bool, dontblock: bool, sndbuf: u16, mem: bool)
    requires s.Valid() && data != []
    ensures var r, n, op := s.Write(data, isNull, dontblock, sndbuf, mem), |s.msgs|, Op.Write(data, isNull, dontblock);
            var k, block := Min(|data|, sndbuf), !s.nonblocking && !dontblock;
            if IsFatal(s.lastErr) then Refused(s, r, op, s.lastErr)
            else if s.state != NONE then Refused(s, r, op, ERR_INPROGRESS)
            else if s.pcb == NoPcb then Refused(s, r, op, ERR_CONN)
            else if !block && k == 0 then Released(s, r, n, ERR_WOULDBLOCK, 0) && r.stream == s.stream
            else if isNull then Released(s, r, n, ERR_ARG, 0) && r.stream == s.stream
            else if s.pcb != Open then Released(s, r, n, ERR_CONN, 0) && r.stream == s.stream
            else if k > 0 && !mem then
              r.stream == s.stream && if block then Waiting(s, r, WRITE) && r.writeOffset == 0 else Released(s, r, n, ERR_MEM, 0)
            else
              && r.stream == s.stream + data[..k]
              && if k == |data| || !block then Released(s, r, n, ERR_OK, k) else Waiting(s, r, WRITE) && r.writeOffset == k
  {
    hide Conn.Sound;
    var t := s.Begin(Op.Write(data, isNull, dontblock), |data|, WRITE);
    if !IsFatal(s.lastErr) && s.state == NONE && s.pcb != NoPcb {
      WriteMoreOutcome(t, sndbuf, mem);
      WaitsStill(t, sndbuf, mem);
      assert data[0..Min(|data|, sndbuf)] == data[..Min(|data|, sndbuf)] && s.stream + [] == s.stream;
      hide Conn.WriteMore;
    }
  }

  lemma WaitsStill(s: Conn, sndbuf: u16, mem: bool)
    requires s.Writing()
    ensures var r := s.WriteMore(sndbuf, mem);
            r.state == WRITE && r.currentMsg == s.currentMsg ==> r.Busy() && r.Current().done == s.Current().done
  {
  }

  /** do_close() is refused while something else is going on, without a pcb, and for half a listening pcb.
      Otherwise the netconn is closed at once, unless a FIN is needed for which there is no memory, or
      only the sending side of a pcb that cannot send is to be closed. */
  lemma CloseAnswered(s: Conn, rd: bool, wr: bool, mem: bool)
    requires s.Valid()
    ensures var r, op := s.Close(rd, wr, mem), Op.Close(rd, wr);
            if s.state != NONE && s.state != LISTEN then Refused(s, r, op, ERR_INPROGRESS)
            else if s.pcb == NoPcb then Refused(s, r, op, ERR_VAL)
            else if s.pcb == Listening && !(rd && wr) then Refused(s, r, op, ERR_CONN)
            else if wr && ((s.pcb == Open && !mem) || (!rd && s.pcb != Open)) then Waiting(s, r, CLOSE) && r.pcb == s.pcb
            else Released(s, r, |s.msgs|, ERR_OK, 0) && r.pcb == if rd && wr then NoPcb else if wr then Shut else s.pcb
  {
    hide Conn.Sound;
  }

  /** do_connect() */
  lemma ConnectAnswered(s: Conn, err: Err)
    requires s.Valid()
    ensures var r := s.Connect(err);
            if s.pcb == NoPcb then Refused(s, r, Op.Connect, ERR_CLSD)
            else if s.state != NONE || s.pcb != Fresh then Refused(s, r, Op.Connect, ERR_ISCONN)
            else if err != ERR_OK then Refused(s, r, Op.Connect, err)
            else
              && r.pcb == SynSent && r.state == CONNECT && r.inNonblockingConnect == s.nonblocking
              && if s.nonblocking then r.msgs == s.msgs + [Msg(Op.Connect, 0, ERR_INPROGRESS, true, [])] && r.signals == s.signals + 1
                 else Waiting(s, r, CONNECT)
  {
    hide Conn.Sound;
  }

  /** do_listen() */
  lemma ListenAnswered(s: Conn, mem: bool, mbox: bool)
    requires s.Valid()
    ensures var r := s.Listen(mem, mbox);
            if IsFatal(s.lastErr) then Refused(s, r, Op.Listen, s.lastErr)
            else if s.pcb == NoPcb || s.state != NONE then Refused(s, r, Op.Listen, ERR_CONN)
            else if s.pcb != Fresh || !mem then Refused(s, r, Op.Listen, ERR_MEM)
            else
              && r.state == (if mbox then LISTEN else NONE) && r.pcb == (if mbox then Listening else NoPcb)
              && r.msgs == s.msgs + [Msg(Op.Listen, 0, if mbox then ERR_OK else ERR_MEM, true, [])] && r.signals == s.signals + 1
  {
    hide Conn.Sound;
  }

  /** NETCONN_FLAG_CHECK_WRITESPACE is set by a write that does not block and was not tried as a whole, and
      cleared by the first callback that finds the pcb writable. */
  lemma SelectFlag(s: Conn, data: seq<byte>, dontblock: bool, sndbuf: u16, mem: bool, sndbuf1: u16, mem1: bool, writable: bool)
    requires s.Valid() && data != [] && s.state == NONE && s.pcb == Open && !IsFatal(s.lastErr)
    ensures var r := s.Write(data, false, dontblock, sndbuf, mem);
            r.checkWritespace <==> s.checkWritespace || ((s.nonblocking || dontblock) && sndbuf < |data|)
    ensures writable && s.Sent(sndbuf1, mem1, writable).pcb != NoPcb ==> !s.Sent(sndbuf1, mem1, writable).checkWritespace
  {
    hide Conn.Sound;
  }
}
