/** lwip/netif/slipif.c: SLIP framing of packets on a serial line (RFC 1055). */
module Slip {
  import opened Common
  import opened SeqNum

  const SLIP_END: byte := 0xC0
  const SLIP_ESC: byte := 0xDB
  const SLIP_ESC_END: byte := 0xDC
  const SLIP_ESC_ESC: byte := 0xDD
  const SLIP_MAX_SIZE := 1500

  /** The bytes of a pbuf chain. */
  function Flat(q: seq<seq<byte>>): seq<byte> {
    if q == [] then [] else q[0] + Flat(q[1..])
  }

  // ---------------------------------------------------------------- the encoding

  function Escaped(c: byte): seq<byte> {
    if c == SLIP_END then [SLIP_ESC, SLIP_ESC_END]
    else if c == SLIP_ESC then [SLIP_ESC, SLIP_ESC_ESC]
    else [c]
  }

  function EscapedAll(s: seq<byte>): seq<byte> {
    if s == [] then [] else EscapedAll(s[..|s| - 1]) + Escaped(s[|s| - 1])
  }

  function Encode(s: seq<byte>): seq<byte> {
    [SLIP_END] + EscapedAll(s) + [SLIP_END]
  }

  function EncodeAll(ps: seq<seq<byte>>): seq<byte> {
    if ps == [] then [] else EncodeAll(ps[..|ps| - 1]) + Encode(ps[|ps| - 1])
  }

  lemma EscapedAllOn(s: seq<byte>, c: byte)
    ensures EscapedAll(s + [c]) == EscapedAll(s) + Escaped(c)
  {
    assert (s + [c])[..|s|] == s;
  }

  lemma {:induction false} FlatOn(q: seq<seq<byte>>, t: seq<byte>)
    ensures Flat(q + [t]) == Flat(q) + t
    decreases |q|
  {
    if q == [] {
      assert q + [t] == [t] && [t][1..] == [];
    } else {
      assert (q + [t])[1..] == q[1..] + [t];
      FlatOn(q[1..], t);
    }
  }

  /** slipif_output(): `sent` are the bytes given to sio_send(). */
  method SlipifOutput(p: seq<seq<byte>>) returns (sent: seq<byte>)
    ensures sent == Encode(Flat(p))
  {
    hide Flat, EscapedAll, Escaped;
    sent := [SLIP_END];
    ghost var done: seq<byte> := [];
    EmptyParts();
    for k := 0 to |p|
      invariant done == Flat(p[..k]) && sent == [SLIP_END] + EscapedAll(done)
    {
      ghost var before := done;
      for i := 0 to |p[k]|
        invariant done == before + p[k][..i] && sent == [SLIP_END] + EscapedAll(done)
      {
        var c := p[k][i];
        EscapedAllOn(done, c);
        EscapedIs(c);
        if c == SLIP_END {
          sent := sent + [SLIP_ESC];
          sent := sent + [SLIP_ESC_END];
        } else if c == SLIP_ESC {
          sent := sent + [SLIP_ESC];
          sent := sent + [SLIP_ESC_ESC];
        } else {
          sent := sent + [c];
        }
        done := done + [c];
        assert before + p[k][..i + 1] == before + p[k][..i] + [c];
      }
      FlatOn(p[..k], p[k]);
      assert p[..k + 1] == p[..k] + [p[k]] && p[k][..|p[k]|] == p[k];
    }
    assert p[..|p|] == p;
    sent := sent + [SLIP_END];
  }

  lemma EmptyParts()
    ensures Flat([]) == [] && EscapedAll([]) == []
  {
  }

  lemma EscapedIs(c: byte)
    ensures c == SLIP_END ==> Escaped(c) == [SLIP_ESC] + [SLIP_ESC_END]
    ensures c == SLIP_ESC ==> Escaped(c) == [SLIP_ESC] + [SLIP_ESC_ESC]
    ensures c != SLIP_END && c != SLIP_ESC ==> Escaped(c) == [c]
  {
  }

  // ---------------------------------------------------------------- the decoder

  datatype State = Normal | Escape

  /** The decoder between two bytes: its state, and what it has of the current packet. */
  datatype Dec = Dec(state: State, buf: seq<byte>)

  const Fresh := Dec(Normal, [])

  /** A data byte: it is dropped when there is no room for it in the buffers or in a packet. */
  function Store(d: Dec, c: byte, room: bool): Dec {
    if room && |d.buf| <= SLIP_MAX_SIZE then Dec(Normal, d.buf + [c]) else Dec(Normal, d.buf)
  }

  function Unescaped(c: byte): byte {
    if c == SLIP_ESC_END then SLIP_END else if c == SLIP_ESC_ESC then SLIP_ESC else c
  }

  /** The decoder after byte c, and the packet that it completes. */
  function Feed(d: Dec, c: byte, room: bool): (Dec, Option<seq<byte>>) {
    if d.state.Escape? then (Store(d, Unescaped(c), room), None)
    else if c == SLIP_END then
      (Dec(Normal, []), if d.buf != [] then Some(d.buf) else None)
    else if c == SLIP_ESC then (Dec(Escape, d.buf), None)
    else (Store(d, c, room), None)
  }

  /** The decoder after a run with enough buffers, and the packets it completed. */
  function After(d: Dec, s: seq<byte>): Dec {
    if s == [] then d else Feed(After(d, s[..|s| - 1]), s[|s| - 1], true).0
  }

  function Decoded(d: Dec, s: seq<byte>): seq<seq<byte>> {
    if s == [] then []
    else
      var p := Feed(After(d, s[..|s| - 1]), s[|s| - 1], true).1;
      Decoded(d, s[..|s| - 1]) + if p.Some? then [p.value] else []
  }

  /** The bytes s take the decoder from d to e and complete the packets ps. */
  ghost predicate Goes(d: Dec, s: seq<byte>, e: Dec, ps: seq<seq<byte>>) {
    After(d, s) == e && Decoded(d, s) == ps
  }

  lemma {:induction false} GoesOn(d: Dec, a: seq<byte>, e: Dec, ps: seq<seq<byte>>, b: seq<byte>, f: Dec, qs: seq<seq<byte>>)
    requires Goes(d, a, e, ps) && Goes(e, b, f, qs)
    ensures Goes(d, a + b, f, ps + qs)
    decreases |b|
  {
    if b == [] {
      assert a + b == a && ps + qs == ps;
    } else {
      var c := b[..|b| - 1];
      assert (a + b)[..|a + b| - 1] == a + c;
      GoesOn(d, a, e, ps, c, After(e, c), Decoded(e, c));
    }
  }

  lemma GoesOne(d: Dec, c: byte)
    ensures var (e, p) := Feed(d, c, true); Goes(d, [c], e, if p.Some? then [p.value] else [])
  {
    assert [c][..0] == [];
  }

  lemma GoesNone(d: Dec)
    ensures Goes(d, [], d, [])
  {
  }

  /** What fits: the first SLIP_MAX_SIZE + 1 bytes. */
  function Kept(s: seq<byte>): (r: seq<byte>)
    ensures r <= s
  {
    if |s| <= SLIP_MAX_SIZE + 1 then s else s[..SLIP_MAX_SIZE + 1]
  }

  lemma KeptOn(s: seq<byte>, t: seq<byte>, c: byte)
    ensures Kept(Kept(s) + t) == Kept(s + t)
    ensures Store(Dec(Normal, Kept(s)), c, true) == Dec(Normal, Kept(s + [c]))
  {
  }

  /** A data byte reaches the buffer unescaped, if it has room. */
  lemma GoesByte(s: seq<byte>, c: byte)
    ensures Goes(Dec(Normal, Kept(s)), Escaped(c), Dec(Normal, Kept(s + [c])), [])
  {
    hide Goes;
    var e := Dec(Normal, Kept(s));
    KeptOn(s, [], c);
    if c == SLIP_END || c == SLIP_ESC {
      var x := if c == SLIP_END then SLIP_ESC_END else SLIP_ESC_ESC;
      assert Escaped(c) == [SLIP_ESC] + [x];
      GoesOne(e, SLIP_ESC);
      GoesOne(Dec(Escape, e.buf), x);
      GoesOn(e, [SLIP_ESC], Dec(Escape, e.buf), [], [x], Dec(Normal, Kept(s + [c])), []);
    } else {
      GoesOne(e, c);
    }
  }

  lemma {:induction false} GoesData(b: seq<byte>, s: seq<byte>)
    ensures Goes(Dec(Normal, Kept(b)), EscapedAll(s), Dec(Normal, Kept(b + s)), [])
    decreases |s|
  {
    hide Goes, Kept, Escaped;
    if s == [] {
      assert b + s == b;
      GoesNone(Dec(Normal, Kept(b)));
    } else {
      var t, c := s[..|s| - 1], s[|s| - 1];
      GoesData(b, t);
      GoesByte(b + t, c);
      assert b + s == b + t + [c];
      GoesOn(Dec(Normal, Kept(b)), EscapedAll(t), Dec(Normal, Kept(b + t)), [], Escaped(c), Dec(Normal, Kept(b + s)), []);
    }
  }

  /** Empty packets vanish. */
  function Packet(s: seq<byte>): seq<seq<byte>> {
    if s == [] then [] else [s]
  }

  lemma GoesEnd(b: seq<byte>)
    ensures Goes(Dec(Normal, b), [SLIP_END], Fresh, Packet(b))
  {
    GoesOne(Dec(Normal, b), SLIP_END);
  }

  /** One frame from a decoder that is not in an escape: what was left from before is a packet of
      its own, then comes the frame. */
  lemma GoesFrame(b: seq<byte>, s: seq<byte>)
    ensures Goes(Dec(Normal, b), Encode(s), Fresh, Packet(b) + Packet(Kept(s)))
  {
    assert Kept([]) == [];
    hide Goes, Kept, EscapedAll, Packet;
    GoesEnd(b);
    GoesData([], s);
    assert [] + s == s;
    GoesEnd(Kept(s));
    GoesOn(Dec(Normal, b), [SLIP_END], Fresh, Packet(b), EscapedAll(s), Dec(Normal, Kept(s)), []);
    assert Packet(b) + [] == Packet(b);
    GoesOn(Dec(Normal, b), [SLIP_END] + EscapedAll(s), Dec(Normal, Kept(s)), Packet(b), [SLIP_END], Fresh, Packet(Kept(s)));
  }

  /** A frame that arrives in an escape: its first END is taken as data. */
  lemma GoesSpoiled(b: seq<byte>, s: seq<byte>)
    requires |b| <= SLIP_MAX_SIZE + 1
    ensures Goes(Dec(Escape, b), Encode(s), Fresh, [Kept(b + [SLIP_END] + s)])
  {
    var b1 := b + [SLIP_END];
    assert Kept(b) == b && Kept(b1 + s) != [];
    GoesOne(Dec(Escape, b), SLIP_END);
    KeptOn(b, [SLIP_END], SLIP_END);
    GoesEnd(Kept(b1 + s));
    hide Goes, Kept, EscapedAll;
    GoesData(b1, s);
    GoesOn(Dec(Escape, b), [SLIP_END], Dec(Normal, Kept(b1)), [], EscapedAll(s), Dec(Normal, Kept(b1 + s)), []);
    GoesOn(Dec(Escape, b), [SLIP_END] + EscapedAll(s), Dec(Normal, Kept(b1 + s)), [], [SLIP_END], Fresh, [Kept(b1 + s)]);
  }

  /** What the decoder makes of the packets ps. */
  function Received(ps: seq<seq<byte>>): seq<seq<byte>> {
    if ps == [] then [] else Received(ps[..|ps| - 1]) + Packet(Kept(ps[|ps| - 1]))
  }

  lemma {:induction false} GoesFrames(ps: seq<seq<byte>>)
    ensures Goes(Fresh, EncodeAll(ps), Fresh, Received(ps))
    decreases |ps|
  {
    hide Goes, Encode, Kept;
    if ps == [] {
      GoesNone(Fresh);
    } else {
      var qs, s := ps[..|ps| - 1], ps[|ps| - 1];
      GoesFrames(qs);
      GoesFrame([], s);
      assert Packet([]) + Packet(Kept(s)) == Packet(Kept(s));
      GoesOn(Fresh, EncodeAll(qs), Fresh, Received(qs), Encode(s), Fresh, Packet(Kept(s)));
    }
  }

  lemma {:induction false} ReceivedAll(ps: seq<seq<byte>>)
    ensures |Received(ps)| <= |ps|
    ensures Received(ps) == ps <==> forall i :: 0 <= i < |ps| ==> 0 < |ps[i]| <= SLIP_MAX_SIZE + 1
    decreases |ps|
  {
    hide Kept, Packet;
    if ps != [] {
      var n := |ps| - 1;
      var qs, s := ps[..n], ps[n];
      ReceivedAll(qs);
      PacketShort(Kept(s));
      assert ps == qs + [s];
      assert forall i :: 0 <= i < n ==> qs[i] == ps[i];
      ReceivedLast(qs, Received(qs), s);
    }
  }

  lemma PacketShort(s: seq<byte>)
    ensures |Packet(s)| <= 1
  {
  }

  lemma ReceivedLast(qs: seq<seq<byte>>, rs: seq<seq<byte>>, s: seq<byte>)
    requires |rs| <= |qs|
    ensures rs + Packet(Kept(s)) == qs + [s] <==> rs == qs && 0 < |s| <= SLIP_MAX_SIZE + 1
  {
    if rs + Packet(Kept(s)) == qs + [s] {
      assert |Packet(Kept(s))| == 1;
      assert (rs + Packet(Kept(s)))[..|qs|] == rs && (qs + [s])[..|qs|] == qs;
      assert (rs + Packet(Kept(s)))[|qs|] == Kept(s);
    }
  }

  /** Round trip: decoding the frames of any packets gives exactly these packets in order, if and only
      if none is empty or longer than SLIP_MAX_SIZE + 1, one more than the documented maximum. */
  lemma RoundTrip(ps: seq<seq<byte>>)
    ensures Decoded(Fresh, EncodeAll(ps)) == ps <==> forall i :: 0 <= i < |ps| ==> 0 < |ps[i]| <= SLIP_MAX_SIZE + 1
  {
    GoesFrames(ps);
    ReceivedAll(ps);
  }

  // ---------------------------------------------------------------- resynchronisation

  /** Whatever bytes came before, the decoder's buffer is within its bound. */
  lemma {:induction false} AfterBound(d: Dec, s: seq<byte>)
    requires |d.buf| <= SLIP_MAX_SIZE + 1
    ensures |After(d, s).buf| <= SLIP_MAX_SIZE + 1
    decreases |s|
  {
    if s != [] { AfterBound(d, s[..|s| - 1]); }
  }

  /** What comes out for the packets ps from any state. */
  function Resynced(d: Dec, ps: seq<seq<byte>>): seq<seq<byte>>
    requires ps != []
  {
    if d.state.Normal? then Packet(d.buf) + Received(ps)
    else [Kept(d.buf + [SLIP_END] + ps[0])] + Received(ps[1..])
  }

  /** After any garbage that does not end in an escape every frame is received; the garbage costs
      at most one junk packet of its own. After garbage that ends in an escape the first frame is
      spoiled: it comes glued to the garbage. All others are received. */
  lemma Resync(g: seq<byte>, ps: seq<seq<byte>>)
    requires ps != []
    ensures After(Fresh, g + EncodeAll(ps)) == Fresh
    ensures Decoded(Fresh, g + EncodeAll(ps)) == Decoded(Fresh, g) + Resynced(After(Fresh, g), ps)
  {
    var d := After(Fresh, g);
    AfterBound(Fresh, g);
    hide Resynced, EncodeAll;
    GoesAny(d, ps);
    GoesOn(Fresh, g, d, Decoded(Fresh, g), EncodeAll(ps), Fresh, Resynced(d, ps));
  }

  lemma {:induction false} GoesAny(d: Dec, ps: seq<seq<byte>>)
    requires ps != [] && |d.buf| <= SLIP_MAX_SIZE + 1
    ensures Goes(d, EncodeAll(ps), Fresh, Resynced(d, ps))
    decreases |ps|
  {
    hide Goes, Kept, Packet, Encode, Resynced, Received;
    var n := |ps| - 1;
    var qs, s := ps[..n], ps[n];
    if n == 0 {
      assert ps == [s] && EncodeAll(ps) == [] + Encode(s) == Encode(s);
      GoesFirst(d, s);
    } else {
      GoesAny(d, qs);
      GoesFrame([], s);
      PacketNone();
      assert Packet([]) + Packet(Kept(s)) == Packet(Kept(s));
      GoesOn(d, EncodeAll(qs), Fresh, Resynced(d, qs), Encode(s), Fresh, Packet(Kept(s)));
      ResyncedOn(d, qs, s);
      assert ps == qs + [s];
    }
  }

  lemma ResyncedOn(d: Dec, qs: seq<seq<byte>>, s: seq<byte>)
    requires qs != []
    ensures Resynced(d, qs + [s]) == Resynced(d, qs) + Packet(Kept(s))
  {
    hide Kept, Packet;
    var ps := qs + [s];
    assert ps[..|qs|] == qs && ps[1..][..|qs| - 1] == qs[1..] && ps[1..][|qs| - 1] == s;
    assert Received(ps) == Received(qs) + Packet(Kept(s));
    assert Received(ps[1..]) == Received(qs[1..]) + Packet(Kept(s));
  }

  lemma GoesFirst(d: Dec, s: seq<byte>)
    requires |d.buf| <= SLIP_MAX_SIZE + 1
    ensures Goes(d, Encode(s), Fresh, Resynced(d, [s]))
  {
    hide Goes, Kept, Packet, Encode;
    assert [s][..0] == [] && [s][1..] == [];
    assert Received([s]) == Packet(Kept(s)) && Received([]) == [];
    if d.state.Normal? {
      GoesFrame(d.buf, s);
    } else {
      GoesSpoiled(d.buf, s);
      var k := Kept(d.buf + [SLIP_END] + s);
      assert Resynced(d, [s]) == [k] + [] == [k];
    }
  }

  lemma PacketNone()
    ensures Packet([]) == []
  {
  }

  // ---------------------------------------------------------------- what the line carries

  /** An END on the line is always the end of a frame: none is left among the escaped bytes. */
  lemma {:induction false} Transparent(s: seq<byte>)
    ensures SLIP_END !in EscapedAll(s) && |s| <= |EscapedAll(s)| <= 2 * |s|
    decreases |s|
  {
    if s != [] { Transparent(s[..|s| - 1]); }
  }

  // ---------------------------------------------------------------- when there is no pbuf

  /** The decoder after a run in which rooms[j] says whether there is a pbuf for byte j. */
  function AfterWith(d: Dec, s: seq<byte>, rooms: seq<bool>): Dec
    requires |rooms| == |s|
  {
    if s == [] then d else Feed(AfterWith(d, s[..|s| - 1], rooms[..|s| - 1]), s[|s| - 1], rooms[|s| - 1]).0
  }

  function DecodedWith(d: Dec, s: seq<byte>, rooms: seq<bool>): seq<seq<byte>>
    requires |rooms| == |s|
  {
    if s == [] then []
    else
      var p := Feed(AfterWith(d, s[..|s| - 1], rooms[..|s| - 1]), s[|s| - 1], rooms[|s| - 1]).1;
      DecodedWith(d, s[..|s| - 1], rooms[..|s| - 1]) + if p.Some? then [p.value] else []
  }

  ghost predicate GoesWith(d: Dec, s: seq<byte>, rooms: seq<bool>, e: Dec, ps: seq<seq<byte>>) {
    |rooms| == |s| && AfterWith(d, s, rooms) == e && DecodedWith(d, s, rooms) == ps
  }

  lemma {:induction false} AllRoom(d: Dec, s: seq<byte>, rooms: seq<bool>)
    requires |rooms| == |s| && forall j :: 0 <= j < |s| ==> rooms[j]
    ensures AfterWith(d, s, rooms) == After(d, s) && DecodedWith(d, s, rooms) == Decoded(d, s)
    decreases |s|
  {
    if s != [] { AllRoom(d, s[..|s| - 1], rooms[..|s| - 1]); }
  }

  lemma GoesWithOne(d: Dec, s: seq<byte>, rooms: seq<bool>, e: Dec, ps: seq<seq<byte>>, c: byte, room: bool)
    requires GoesWith(d, s, rooms, e, ps)
    ensures var (f, p) := Feed(e, c, room); GoesWith(d, s + [c], rooms + [room], f, ps + if p.Some? then [p.value] else [])
  {
    assert (s + [c])[..|s|] == s && (rooms + [room])[..|s|] == rooms;
  }

  /** The data bytes for which there was a pbuf, when rooms belongs to the escaped bytes. */
  function Stored(s: seq<byte>, rooms: seq<bool>): seq<byte>
    requires |rooms| == |EscapedAll(s)|
  {
    if s == [] then []
    else
      Stored(s[..|s| - 1], rooms[..|EscapedAll(s[..|s| - 1])|]) + if rooms[|rooms| - 1] then [s[|s| - 1]] else []
  }

  /** There was one for every data byte. */
  predicate Roomy(s: seq<byte>, rooms: seq<bool>)
    requires |rooms| == |EscapedAll(s)|
  {
    s != [] ==> rooms[|rooms| - 1] && Roomy(s[..|s| - 1], rooms[..|EscapedAll(s[..|s| - 1])|])
  }

  lemma {:induction false} StoredExact(s: seq<byte>, rooms: seq<bool>)
    requires |rooms| == |EscapedAll(s)|
    ensures |Stored(s, rooms)| <= |s| && (Stored(s, rooms) == s <==> Roomy(s, rooms))
    decreases |s|
  {
    if s != [] {
      StoredOn(s, rooms);
      hide Stored, Roomy, EscapedAll, Escaped;
      var t, c := s[..|s| - 1], s[|s| - 1];
      var q := rooms[..|EscapedAll(t)|];
      StoredExact(t, q);
      assert s == t + [c];
      SameEnd(Stored(t, q), t, c);
    }
  }

  lemma SameEnd(a: seq<byte>, b: seq<byte>, c: byte)
    ensures a + [c] == b + [c] <==> a == b
  {
    assert (a + [c])[..|a|] == a && (b + [c])[..|b|] == b;
  }

  /** One data byte on the line, for which there is a pbuf or not. */
  lemma GoesStoredByte(line: seq<byte>, all: seq<bool>, b: seq<byte>, c: byte, rooms: seq<bool>)
    requires GoesWith(Fresh, line, all, Dec(Normal, b), []) && |rooms| == |Escaped(c)| && |b| <= SLIP_MAX_SIZE
    ensures |rooms| > 0
    ensures GoesWith(Fresh, line + Escaped(c), all + rooms, Dec(Normal, b + if rooms[|rooms| - 1] then [c] else []), [])
  {
    hide GoesWith;
    var e := Dec(Normal, b);
    if c == SLIP_END || c == SLIP_ESC {
      var x := if c == SLIP_END then SLIP_ESC_END else SLIP_ESC_ESC;
      GoesWithOne(Fresh, line, all, e, [], SLIP_ESC, rooms[0]);
      GoesWithOne(Fresh, line + [SLIP_ESC], all + [rooms[0]], Dec(Escape, b), [], x, rooms[1]);
      assert line + [SLIP_ESC] + [x] == line + Escaped(c) && all + [rooms[0]] + [rooms[1]] == all + rooms;
    } else {
      GoesWithOne(Fresh, line, all, e, [], c, rooms[0]);
      assert line + [c] == line + Escaped(c) && all + [rooms[0]] == all + rooms;
    }
    assert b + [] == b;
  }

  lemma {:induction false} GoesStored(s: seq<byte>, room: bool, rooms: seq<bool>)
    requires |rooms| == |EscapedAll(s)| && |s| <= SLIP_MAX_SIZE + 1
    ensures GoesWith(Fresh, [SLIP_END] + EscapedAll(s), [room] + rooms, Dec(Normal, Stored(s, rooms)), [])
    decreases |s|
  {
    hide GoesWith, Roomy, EscapedAll, Stored, Escaped;
    if s == [] {
      GoesStoredNone(room);
    } else {
      var t, c := s[..|s| - 1], s[|s| - 1];
      StoredOn(s, rooms);
      var k := |EscapedAll(t)|;
      GoesStored(t, room, rooms[..k]);
      StoredExact(t, rooms[..k]);
      GoesStoredByte([SLIP_END] + EscapedAll(t), [room] + rooms[..k], Stored(t, rooms[..k]), c, rooms[k..]);
      assert [SLIP_END] + EscapedAll(t) + Escaped(c) == [SLIP_END] + EscapedAll(s);
      assert [room] + rooms[..k] + rooms[k..] == [room] + rooms;
      assert Stored(t, rooms[..k]) + [] == Stored(t, rooms[..k]);
    }
  }

  lemma GoesStoredNone(room: bool)
    ensures EscapedAll([]) == [] && Stored([], []) == []
    ensures GoesWith(Fresh, [SLIP_END] + [], [room] + [], Dec(Normal, []), [])
  {
    assert [SLIP_END] + [] == [SLIP_END] && [room] + [] == [room] && [SLIP_END][..0] == [] && [room][..0] == [];
  }

  lemma StoredOn(s: seq<byte>, rooms: seq<bool>)
    requires s != [] && |rooms| == |EscapedAll(s)|
    ensures var t, c := s[..|s| - 1], s[|s| - 1];
            && EscapedAll(s) == EscapedAll(t) + Escaped(c) && |Escaped(c)| > 0
            && Stored(s, rooms) == Stored(t, rooms[..|EscapedAll(t)|]) + (if rooms[|rooms| - 1] then [c] else [])
            && (Roomy(s, rooms) <==> rooms[|rooms| - 1] && Roomy(t, rooms[..|EscapedAll(t)|]))
  {
  }

  /** A frame of a packet that is not too long: what is delivered are the bytes for which there was a
      pbuf, as if they were all. So the packet comes through if and only if pbuf_alloc() never failed
      for one of its bytes. */
  lemma FrameLosses(s: seq<byte>, rooms: seq<bool>, first: bool, last: bool)
    requires |rooms| == |EscapedAll(s)| && |s| <= SLIP_MAX_SIZE + 1
    ensures GoesWith(Fresh, Encode(s), [first] + rooms + [last], Fresh, Packet(Stored(s, rooms)))
    ensures Stored(s, rooms) == s <==> Roomy(s, rooms)
  {
    StoredExact(s, rooms);
    GoesStored(s, first, rooms);
    hide EscapedAll, GoesWith, Stored, Roomy;
    GoesWithOne(Fresh, [SLIP_END] + EscapedAll(s), [first] + rooms, Dec(Normal, Stored(s, rooms)), [], SLIP_END, last);
    PacketIs(Stored(s, rooms));
  }

  lemma PacketIs(s: seq<byte>)
    ensures Packet(s) == [] + if s != [] then [s] else []
  {
  }

  // ---------------------------------------------------------------- the decoder in place

  /** The pbuf the next byte goes to: NULL, or number k of the chain. */
  datatype Cursor = Null | Buf(k: nat)

  lemma {:induction false} FlatSplit(q: seq<seq<byte>>, k: nat)
    requires k <= |q|
    ensures Flat(q) == Flat(q[..k]) + Flat(q[k..])
    decreases k
  {
    if k == 0 {
      assert q[..0] == [] && q[0..] == q;
    } else {
      FlatSplit(q[1..], k - 1);
      assert q[..k][1..] == q[1..][..k - 1] && q[k..] == q[1..][k - 1..];
    }
  }

  /** Store c at payload[i] of buffer k. */
  function PutAt(q: seq<seq<byte>>, k: nat, i: nat, c: byte): (r: seq<seq<byte>>)
    requires k < |q| && i < |q[k]|
    ensures |r| == |q| && forall j :: 0 <= j < |q| ==> |r[j]| == |q[j]|
  {
    var b: seq<byte> := q[k][i := c];
    q[k := b]
  }

  /** Byte i of buffer k in the whole chain. */
  lemma FlatWrite(q: seq<seq<byte>>, k: nat, i: nat, c: byte)
    requires k < |q| && i < |q[k]|
    ensures |Flat(q[..k])| + i < |Flat(q)|
    ensures Flat(PutAt(q, k, i, c)) == Flat(q)[|Flat(q[..k])| + i := c]
    ensures PutAt(q, k, i, c)[..k] == q[..k]
    ensures |Flat(q[..k + 1])| == |Flat(q[..k])| + |q[k]|
  {
    var r := PutAt(q, k, i, c);
    FlatSplit(q, k);
    FlatSplit(r, k);
    assert r[..k] == q[..k];
    assert q[k..] == [q[k]] + q[k + 1..] && r[k..] == [r[k]] + q[k + 1..];
    assert Flat(q[k..]) == q[k] + Flat(q[k + 1..]) && Flat(r[k..]) == r[k] + Flat(q[k + 1..]);
    FlatOn(q[..k], q[k]);
    assert q[..k + 1] == q[..k] + [q[k]];
  }

  /** struct slipif_priv */
  class SlipifPriv {
    var p: Cursor
    /** The payloads of the chain for the current packet. */
    var q: seq<seq<byte>>
    var state: State
    var i: nat
    var recved: nat

    ghost predicate Valid()
      reads this
    {
      && (forall k :: 0 <= k < |q| ==> q[k] != [])
      && recved <= SLIP_MAX_SIZE + 1
      && match p
         case Null => i == 0 && recved == |Flat(q)|
         case Buf(k) => k < |q| && i < |q[k]| && recved == |Flat(q[..k])| + i && recved < |Flat(q)|
    }

    /** The decoder that the buffers stand for. */
    ghost function View(): Dec
      requires Valid()
      reads this
    {
      Dec(state, Flat(q)[..recved])
    }

    constructor ()
      ensures Valid() && View() == Fresh && p == Null
    {
      p, q, state, i, recved := Null, [], Normal, 0, 0;
    }

    /** slipif_rxbyte(): `chain` is what pbuf_alloc() returns if it is called, [] for NULL. */
    method RxByte(c: byte, chain: seq<seq<byte>>) returns (t: Option<seq<byte>>)
      requires Valid() && forall k :: 0 <= k < |chain| ==> chain[k] != []
      modifies this
      ensures Valid()
      ensures (View(), t) == Feed(old(View()), c, old(p) != Null || chain != [])
    {
      t := None;
      var b := c;
      if state.Normal? {
        if c == SLIP_END {
          if recved > 0 {
            t := Some(Flat(q)[..recved]);
            p, q := Null, [];
            i, recved := 0, 0;
          }
          return;
        }
        if c == SLIP_ESC {
          state := Escape;
          return;
        }
      } else {
        if c == SLIP_ESC_END {
          b := SLIP_END;
        } else if c == SLIP_ESC_ESC {
          b := SLIP_ESC;
        }
        state := Normal;
      }
      Put(b, chain);
    }

    /** The bytes of a serial line, one after another; chains[j] is what pbuf_alloc() returns for byte j,
        [] for NULL. `packets` go to netif->input. */
    method RxBytes(s: seq<byte>, chains: seq<seq<seq<byte>>>) returns (packets: seq<seq<byte>>, ghost rooms: seq<bool>)
      requires Valid() && |chains| == |s|
      requires forall j, k :: 0 <= j < |s| && 0 <= k < |chains[j]| ==> chains[j][k] != []
      modifies this
      ensures Valid() && GoesWith(old(View()), s, rooms, View(), packets)
      ensures |rooms| == |s| && forall j :: 0 <= j < |s| && chains[j] != [] ==> rooms[j]
      ensures (forall j :: 0 <= j < |s| ==> chains[j] != []) ==> Goes(old(View()), s, View(), packets)
    {
      hide View, Valid, GoesWith, Feed;
      packets, rooms := [], [];
      GoesWithNone(View());
      assert s[..0] == [];
      for j := 0 to |s|
        invariant Valid() && GoesWith(old(View()), s[..j], rooms, View(), packets)
        invariant |rooms| == j && forall k :: 0 <= k < j && chains[k] != [] ==> rooms[k]
      {
        ghost var before, so, room := View(), packets, p != Null || chains[j] != [];
        var t := RxByte(s[j], chains[j]);
        if t.Some? {
          packets := packets + [t.value];
        }
        assert packets == so + if t.Some? then [t.value] else [];
        GoesWithOne(old(View()), s[..j], rooms, before, so, s[j], room);
        rooms := rooms + [room];
        assert s[..j + 1] == s[..j] + [s[j]];
      }
      assert s[..|s|] == s;
      if forall j :: 0 <= j < |s| ==> chains[j] != [] { GoesAll(old(View()), s, rooms, View(), packets); }
    }

    /** slipif_rxbyte() for a data byte. */
    method Put(c: byte, chain: seq<seq<byte>>)
      requires Valid() && forall k :: 0 <= k < |chain| ==> chain[k] != []
      modifies `p, `q, `i, `recved
      ensures Valid()
      ensures state == Normal ==> View() == Store(old(View()), c, old(p) != Null || chain != [])
    {
      if p == Null {
        if chain == [] {
          return;
        }
        Grow(chain);
      }
      if recved <= SLIP_MAX_SIZE {
        Write(c);
      }
    }

    /** The new chain is appended, and its first pbuf is the current one. */
    method Grow(chain: seq<seq<byte>>)
      requires Valid() && p == Null && chain != [] && forall k :: 0 <= k < |chain| ==> chain[k] != []
      modifies `p, `q
      ensures Valid() && p != Null && View() == old(View())
    {
      hide Flat;
      FlatSplit(q + chain, |q|);
      assert (q + chain)[..|q|] == q && (q + chain)[|q|..] == chain;
      FlatSome(chain);
      p := Buf(|q|);
      q := q + chain;
    }

    /** The byte is stored and the position moves on. */
    method Write(c: byte)
      requires Valid() && p != Null && recved <= SLIP_MAX_SIZE
      modifies `p, `q, `i, `recved
      ensures Valid()
      ensures View() == old(View()).(buf := old(View()).buf + [c])
    {
      hide Flat, PutAt;
      FlatWrite(q, p.k, i, c);
      ghost var was := Flat(q);
      q := PutAt(q, p.k, i, c);
      recved := recved + 1;
      i := i + 1;
      LengthBy(q, p.k);
      assert Flat(q)[..recved] == was[..recved - 1] + [c];
      if i >= |q[p.k]| {
        i := 0;
        if p.k + 1 < |q| && |q[p.k + 1]| > 0 {
          LengthBy(q, p.k + 1);
          p := Buf(p.k + 1);
        } else {
          p := Null;
        }
      }
    }
  }

  lemma GoesWithNone(d: Dec)
    ensures GoesWith(d, [], [], d, [])
  {
  }

  lemma GoesAll(d: Dec, s: seq<byte>, rooms: seq<bool>, e: Dec, ps: seq<seq<byte>>)
    requires GoesWith(d, s, rooms, e, ps) && forall j :: 0 <= j < |rooms| ==> rooms[j]
    ensures Goes(d, s, e, ps)
  {
    AllRoom(d, s, rooms);
  }

  /** No pbuf for the first byte of a packet: the rest is delivered as a packet of its own. */
  method LosesByte(x: byte, y: byte, chain: seq<seq<byte>>) returns (t: Option<seq<byte>>)
    requires x != SLIP_END && x != SLIP_ESC && y != SLIP_END && y != SLIP_ESC
    requires chain != [] && forall k :: 0 <= k < |chain| ==> chain[k] != []
    ensures t == Some([y])
  {
    hide Flat;
    var priv := new SlipifPriv();
    t := priv.RxByte(x, []);
    t := priv.RxByte(y, chain);
    assert [] + [y] == [y];
    t := priv.RxByte(SLIP_END, []);
  }

  /** The length of the chain up to buffer k and with it. */
  lemma LengthBy(q: seq<seq<byte>>, k: nat)
    requires k < |q|
    ensures |Flat(q[..k + 1])| == |Flat(q[..k])| + |q[k]| <= |Flat(q)|
    ensures k + 1 == |q| ==> |Flat(q[..k + 1])| == |Flat(q)|
  {
    FlatSplit(q, k + 1);
    FlatOn(q[..k], q[k]);
    assert q[..k + 1] == q[..k] + [q[k]];
    if k + 1 == |q| { assert q[..k + 1] == q; }
  }

  lemma FlatSome(q: seq<seq<byte>>)
    requires q != [] && q[0] != []
    ensures Flat(q) != []
  {
  }
}
