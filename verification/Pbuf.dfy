/** lwip/core/pbuf.c in place. */
module Pbuf {
  import opened SeqNum
  import opened PbufGraph
  import opened PbufData

  datatype Err = ERR_OK | ERR_ARG | ERR_VAL

  /** The bytes offset .. offset + len of s, as far as it has them. */
  function Slice(s: seq<byte>, offset: nat, len: nat): seq<byte> {
    if offset >= |s| then [] else if offset + len <= |s| then s[offset..offset + len] else s[offset..]
  }

  /** A slice that starts behind the first pbuf. */
  lemma SliceSkip(a: seq<byte>, b: seq<byte>, offset: nat, len: nat)
    requires offset >= |a|
    ensures Slice(a + b, offset, len) == Slice(b, offset - |a|, len)
  {
    if offset < |a| + |b| {
      assert (a + b)[offset..] == b[offset - |a|..];
      if offset + len <= |a + b| {
        assert (a + b)[offset..offset + len] == b[offset - |a|..offset - |a| + len];
      }
    }
  }

  /** A slice that starts in the first pbuf: n bytes come from there. */
  lemma SliceTake(a: seq<byte>, b: seq<byte>, offset: nat, len: nat, n: nat)
    requires offset <= |a| && n == if |a| - offset > len then len else |a| - offset
    ensures Slice(a + b, offset, len) == a[offset..offset + n] + Slice(b, 0, len - n)
  {
    if n == len {
      assert a[offset..offset + n] + [] == a[offset..offset + n];
      if offset < |a + b| { assert (a + b)[offset..offset + len] == a[offset..offset + n]; }
    } else {
      SliceRest(a, b, offset, len, n);
    }
  }

  lemma SliceRest(a: seq<byte>, b: seq<byte>, offset: nat, len: nat, n: nat)
    requires offset <= |a| && n == |a| - offset < len
    ensures Slice(a + b, offset, len) == a[offset..] + Slice(b, 0, len - n)
  {
    if offset + len <= |a + b| {
      assert (a + b)[offset..offset + len] == a[offset..] + b[..len - n];
    } else {
      assert (a + b)[offset..] == a[offset..] + b;
      assert Slice(b, 0, len - n) == b;
    }
  }

  lemma SliceFront(data: seq<byte>, rest: seq<byte>)
    ensures Slice(data + rest, 0, |data|) == data
  {
    SliceTake(data, rest, 0, |data|, |data|);
    SliceNone(rest, 0);
  }

  lemma SliceNone(s: seq<byte>, offset: nat)
    ensures Slice(s, offset, 0) == [] && Slice([], offset, |s|) == []
    ensures forall n: nat :: Slice([], offset, n) == []
  {
  }

  class Pbufs {
    var m: Mem

    /** pbuf_clen(): counts in 8 bits. */
    method PbufClen(p: Ptr, ghost l: seq<nat>) returns (len: nat)
      requires Chain(m, p, l)
      ensures len == |l| % 0x100
    {
      len := 0;
      var q := p;
      ghost var i := 0;
      while q != Null
        invariant 0 <= i <= |l| && Chain(m, q, l[i..]) && len == i % 0x100
        decreases |l| - i
      {
        len := (len + 1) % 0x100;
        q := m[q.id].next;
        assert l[i..][1..] == l[i + 1..];
        i := i + 1;
      }
    }

    /** pbuf_copy_partial(): the bytes at dataptr. */
    method PbufCopyPartial(buf: Ptr, len: u16, offset: u16, ghost l: seq<nat>) returns (dataptr: seq<byte>)
      requires Chain(m, buf, l) && forall x :: x in l && x in m ==> |m[x].data| < 0x1_0000
      ensures dataptr == Slice(Flat(m, l), offset, len)
    {
      hide Slice, Flat, Chain;
      dataptr := [];
      var p, rest: u16, off: u16 := buf, len, offset;
      ghost var i := 0;
      ChainStart(m, buf, l);
      assert l[0..] == l;
      while rest != 0 && p != Null
        invariant 0 <= i <= |l| && p == if i < |l| then Pb(l[i]) else Null
        invariant Slice(Flat(m, l), offset, len) == dataptr + Slice(Flat(m, l[i..]), off, rest)
        decreases |l| - i
      {
        FlatFirst(m, buf, l, i);
        var d := m[p.id].data;
        if off != 0 && off >= |d| {
          SliceSkip(d, Flat(m, l[i + 1..]), off, rest);
          off := off - |d|;
        } else {
          var bufCopyLen := |d| - off;
          if bufCopyLen > rest {
            bufCopyLen := rest;
          }
          SliceTake(d, Flat(m, l[i + 1..]), off, rest, bufCopyLen);
          dataptr := dataptr + d[off..off + bufCopyLen];
          rest := rest - bufCopyLen;
          off := 0;
        }
        p := m[p.id].next;
        i := i + 1;
      }
      FlatNone(m);
      assert l[|l|..] == [];
      SliceNone(Flat(m, l[i..]), off);
    }

    /** pbuf_take(): fills the chain from the front, or refuses when it is too short. Without a chain it
        stores nothing, and says ERR_OK: that answer means that the data is in the chain exactly when
        there is one, or there was nothing to store. */
    method PbufTake(buf: Ptr, dataptr: seq<byte>, ghost l: seq<nat>) returns (err: Err)
      requires Chain(m, buf, l) && TotOk(m, l) && |dataptr| < 0x1_0000
      modifies this
      ensures err == if buf != Null && Total(old(m), l) < |dataptr| then ERR_ARG else ERR_OK
      ensures err == ERR_ARG || buf == Null ==> m == old(m)
      ensures err == ERR_OK && buf != Null ==> Rewritten(old(m), m, l) && Flat(m, l) == dataptr + Flat(old(m), l)[|dataptr|..]
      ensures err == ERR_OK ==> (dataptr <= Flat(m, l) <==> buf != Null || dataptr == [])
    {
      hide Flat, Filled, TotOk, Rewritten;
      FlatNone(m);
      if l != [] { TotHead(m, l); }
      if buf == Null {
        return ERR_OK;
      }
      if m[buf.id].totLen < |dataptr| {
        return ERR_ARG;
      }
      FilledNone(m, buf, l, dataptr);
      var p, copiedTotal := buf, 0;
      ghost var i := 0;
      while copiedTotal != |dataptr|
        invariant 0 <= copiedTotal <= |dataptr| && 0 <= i <= |l|
        invariant Filled(old(m), m, buf, l, i, copiedTotal, dataptr)
        invariant p == if i < |l| then Pb(l[i]) else Null
        decreases |l| - i
      {
        FilledMore(old(m), m, buf, l, i, copiedTotal, dataptr);
        FilledStep(old(m), m, buf, l, i, copiedTotal, dataptr);
        var d := m[p.id].data;
        var bufCopyLen := |dataptr| - copiedTotal;
        if bufCopyLen > |d| {
          bufCopyLen := |d|;
        }
        m := m[p.id := m[p.id].(data := dataptr[copiedTotal..copiedTotal + bufCopyLen] + d[bufCopyLen..])];
        copiedTotal := copiedTotal + bufCopyLen;
        p := m[p.id].next;
        i := i + 1;
      }
      FilledAll(old(m), m, buf, l, i, dataptr);
      return ERR_OK;
    }

    /** pbuf_copy(): copies the whole source over the front of the target, however either is split
        into pbufs, or refuses when the target is too short. A source that ends in an empty pbuf is taken
        for a queue of packets, and what was copied before that stays in the target. */
    method PbufCopy(pTo: Ptr, pFrom: Ptr, ghost lt: seq<nat>, ghost lf: seq<nat>) returns (err: Err)
      requires Chain(m, pTo, lt) && Chain(m, pFrom, lf) && forall x :: x in lf ==> x !in lt
      requires TotOk(m, lt) && TotOk(m, lf)
      modifies this
      ensures var short := pTo == Null || pFrom == Null || Total(old(m), lt) < Total(old(m), lf);
              && (short ==> m == old(m))
              && (err == ERR_ARG <==> short || Spent(old(m), lt, lf))
              && (err == ERR_OK ==> OnePacket(old(m), lt, lf))
              && (err == ERR_VAL && NoEmptyEnd(old(m), lt) ==> !OnePacket(old(m), lt, lf))
              && (!short ==> Rewritten(old(m), m, lt) && exists c :: Through(m, lt, Flat(old(m), lf), Flat(old(m), lt), c))
              && (err == ERR_OK ==> Flat(m, lt) == Flat(old(m), lf) + Flat(old(m), lt)[Total(old(m), lf)..])
    {
      FlatNone(m);
      ChainStart(m, pTo, lt);
      ChainStart(m, pFrom, lf);
      if lt != [] { TotHead(m, lt); }
      if lf != [] { TotHead(m, lf); }
      if pTo == Null || pFrom == Null || m[pTo.id].totLen < m[pFrom.id].totLen {
        return ERR_ARG;
      }
      ghost var c;
      err, c := CopyLoop(pTo, pFrom, lt, lf);
    }

    /** The loop of pbuf_copy(). */
    method CopyLoop(pTo: Ptr, pFrom: Ptr, ghost lt: seq<nat>, ghost lf: seq<nat>) returns (err: Err, ghost c: nat)
      requires Pair(m, pTo, pFrom, lt, lf) && lt != [] && lf != [] && pTo == Pb(lt[0]) && pFrom == Pb(lf[0])
      modifies this
      ensures Rewritten(old(m), m, lt) && Through(m, lt, Flat(old(m), lf), Flat(old(m), lt), c)
      ensures err == ERR_ARG <==> Spent(old(m), lt, lf)
      ensures err == ERR_OK ==> OnePacket(old(m), lt, lf)
      ensures err == ERR_VAL && NoEmptyEnd(old(m), lt) ==> !OnePacket(old(m), lt, lf)
      ensures err == ERR_OK ==> Flat(m, lt) == Flat(old(m), lf) + Flat(old(m), lt)[Total(old(m), lf)..]
    {
      hide Flat, Rewritten, Copied, Pair, Through, NoEmptyEnd, OnePacket, Admitted;
      var to, from, offsetTo, offsetFrom := pTo, pFrom, 0, 0;
      ghost var m0, i, j := m, 0, 0;
      CopiedNone(m, pTo, pFrom, lt, lf);
      PairHere(m0, pTo, pFrom, lt, lf, 0, 0);
      CopiedLinks(m0, m, pTo, pFrom, lt, lf, 0, 0, 0, 0);
      while from != Null
        invariant 0 <= offsetTo && 0 <= offsetFrom && 0 <= i <= |lf| && 0 <= j <= |lt|
        invariant Copied(m0, m, lt, lf, j, offsetTo, i, offsetFrom)
        invariant if i < |lf| then from == Pb(lf[i]) && lf[i] in m0 && offsetFrom <= |m0[lf[i]].data|
                  else from == Null && offsetFrom == 0
        invariant if j < |lt| then to == Pb(lt[j]) && lt[j] in m0 && offsetTo <= |m0[lt[j]].data|
                  else to == Null && offsetTo == 0 && from == Null
        invariant if i == 0 == j then offsetTo == 0 == offsetFrom else Admitted(m0, lt, lf, i)
        decreases |lf| - i + |lt| - j
      {
        CopiedHere(m0, m, pTo, pFrom, lt, lf, j, offsetTo, i, offsetFrom);
        PairHere(m0, pTo, pFrom, lt, lf, j, i);
        ghost var i0, begin := i, i == 0 == j;
        var t, f := m[to.id].data, m[from.id].data;
        var len := if |t| - offsetTo >= |f| - offsetFrom then |f| - offsetFrom else |t| - offsetTo;
        CopiedStep(m0, m, pTo, pFrom, lt, lf, j, offsetTo, i, offsetFrom, len);
        m := m[to.id := m[to.id].(data := t[..offsetTo] + f[offsetFrom..offsetFrom + len] + t[offsetTo + len..])];
        CopiedLinks(m0, m, pTo, pFrom, lt, lf, j, offsetTo + len, i, offsetFrom + len);
        offsetTo := offsetTo + len;
        offsetFrom := offsetFrom + len;
        if offsetFrom >= |m[from.id].data| {
          CopiedNextFrom(m0, m, lt, lf, j, offsetTo, i);
          offsetFrom := 0;
          from := m[from.id].next;
          i := i + 1;
        }
        if offsetTo == |m[to.id].data| {
          CopiedNextTo(m0, m, lt, lf, j, i, offsetFrom);
          offsetTo := 0;
          to := m[to.id].next;
          j := j + 1;
          PairHere(m0, pTo, pFrom, lt, lf, j, i);
          if to == Null && from != Null {
            NoRoom(m0, m, pTo, pFrom, lt, lf, i0, i, offsetFrom, begin);
            c := CopiedPart(m0, m, lt, lf, j, offsetTo, i, offsetFrom);
            return ERR_ARG, c;
          }
        }
        PairHere(m0, pTo, pFrom, lt, lf, j, i);
        CopiedLinks(m0, m, pTo, pFrom, lt, lf, j, offsetTo, i, offsetFrom);
        if from != Null && |m[from.id].data| == m[from.id].totLen && m[from.id].next != Null {
          SourceStop(m0, pTo, pFrom, lt, lf, i0, i, begin);
          c := CopiedPart(m0, m, lt, lf, j, offsetTo, i, offsetFrom);
          return ERR_VAL, c;
        }
        AdmittedOn(m0, pTo, pFrom, lt, lf, i0, i, begin);
        if to != Null && |m[to.id].data| == m[to.id].totLen && m[to.id].next != Null {
          TargetStop(m0, pTo, pFrom, lt, lf, j);
          c := CopiedPart(m0, m, lt, lf, j, offsetTo, i, offsetFrom);
          return ERR_VAL, c;
        }
      }
      c := CopiedPart(m0, m, lt, lf, j, offsetTo, i, offsetFrom);
      CopiedAll(m0, m, lt, lf, j, offsetTo);
      AdmittedAll(m0, lt, lf);
      return ERR_OK, c;
    }

    /** pbuf_take() and pbuf_copy_partial() of as many bytes: after ERR_OK the data comes back exactly
        when there is a chain, or no data. */
    method TakeThenCopy(buf: Ptr, dataptr: seq<byte>, ghost l: seq<nat>) returns (err: Err, back: seq<byte>)
      requires Chain(m, buf, l) && TotOk(m, l) && |dataptr| < 0x1_0000
      modifies this
      ensures err == if buf != Null && Total(old(m), l) < |dataptr| then ERR_ARG else ERR_OK
      ensures err == ERR_OK ==> (back == dataptr <==> buf != Null || dataptr == [])
      ensures err == ERR_ARG || buf == Null ==> back == [] && m == old(m)
    {
      hide Chain, TotOk, Flat, Slice, Rewritten;
      back := [];
      FlatNone(m);
      SliceNone([], 0);
      ChainStart(m, buf, l);
      err := PbufTake(buf, dataptr, l);
      if err == ERR_OK {
        if buf != Null {
          TakenChain(old(m), m, buf, l);
          SliceFront(dataptr, Flat(old(m), l)[|dataptr|..]);
        }
        back := PbufCopyPartial(buf, |dataptr|, 0, l);
      }
    }

    /** The plainest case in which they do not: a byte is said to be stored, and is not. */
    method TakeIntoNothing(z: byte) returns (err: Err, back: seq<byte>)
      modifies this
      ensures err == ERR_OK && back == [] && m == old(m)
    {
      assert TotOk(m, []);
      err, back := TakeThenCopy(Null, [z], []);
    }

    // -------------------------------------------------------------- ownership

    /** pbuf_free(): exactly the head run of pbufs with one reference is gone, the pbuf behind it has
        one reference less, and the count, in 8 bits, is the length of the run. */
    method PbufFree(p: Ptr, ghost l: seq<nat>) returns (count: nat)
      requires Chain(m, p, l) && forall x :: x in l && x in m ==> m[x].ref > 0
      modifies this
      ensures m == Released(old(m), l) && count == RunLength(old(m), l) % 0x100
    {
      hide Chain, Released, RunLength, Freeing;
      count := 0;
      var q := p;
      ghost var m0, i := m, 0;
      ChainStart(m, p, l);
      FreedNone(m, l);
      while q != Null
        invariant 0 <= i <= |l| && Freeing(m0, m, l, i) && count == i % 0x100
        invariant q == if i < |l| then Pb(l[i]) else Null
        decreases |l| - i
      {
        FreeingHere(m0, m, p, l, i);
        if m[q.id].ref == 1 { FreeingStep(m0, m, l, i); } else { FreedHere(m0, m, l, i); }
        var ref := m[q.id].ref - 1;
        m := m[q.id := m[q.id].(ref := ref)];
        if ref == 0 {
          var next := m[q.id].next;
          m := m - {q.id};
          count := (count + 1) % 0x100;
          q := next;
          i := i + 1;
        } else {
          return;
        }
      }
      FreedRun(m0, m, l);
    }

    /** pbuf_ref() */
    method PbufRef(p: Ptr)
      requires p.Pb? ==> p.id in m
      modifies this
      ensures m == if p == Null then old(m) else Ref(old(m), p.id)
    {
      if p != Null {
        m := m[p.id := m[p.id].(ref := Low16(m[p.id].ref + 1))];
      }
    }

    /** pbuf_cat(), whatever t is. */
    method PbufCat(h: Ptr, t: Ptr, ghost l: seq<nat>)
      requires Chain(m, h, l) && (t.Pb? ==> t.id in m)
      modifies this
      ensures h == Null || t == Null ==> m == old(m)
      ensures h != Null && t != Null ==> l != [] && l[|l| - 1] in old(m) && m == Joined(old(m), l, t.id)
      ensures h != Null && t != Null && t.id !in l ==> m == Cat(old(m), l, t.id)
    {
      if h == Null || t == Null {
        return;
      }
      hide Chain, AddLoop, Cat, Joined;
      ghost var m0 := m;
      var p := AddTotals(h.id, t.id, l);
      AddLoopHere(m0, h, l, |l| - 1, t.id);
      assert l[..|l|] == l;
      m := m[p := m[p].(totLen := Low16(m[p].totLen + m[t.id].totLen))];
      JoinedIs(m0, l, t.id);
      m := m[p := m[p].(next := t)];
      if t.id !in l { JoinedApart(m0, h, l, t.id); }
    }

    /** The loop of pbuf_cat(), to the last pbuf. */
    method AddTotals(h: nat, t: nat, ghost l: seq<nat>) returns (p: nat)
      requires Chain(m, Pb(h), l) && t in m
      modifies this
      ensures l != [] && p == l[|l| - 1] && p in old(m) && m == AddLoop(old(m), l[..|l| - 1], t)
    {
      hide Chain, AddLoop;
      ghost var m0, i := m, 0;
      ChainStart(m, Pb(h), l);
      AddLoopNone(m, t);
      AddLoopHere(m0, Pb(h), l, 0, t);
      assert l[..0] == [];
      p := h;
      while m[p].next != Null
        invariant 0 <= i < |l| && p == l[i] && p in m0 && m == AddLoop(m0, l[..i], t)
        invariant p in m && m[p].next == if i + 1 < |l| then Pb(l[i + 1]) else Null
        decreases |l| - i
      {
        AddLoopHere(m0, Pb(h), l, i, t);
        m := m[p := m[p].(totLen := Low16(m[p].totLen + m[t].totLen))];
        AddLoopHere(m0, Pb(h), l, i + 1, t);
        p := m[p].next.id;
        i := i + 1;
      }
    }

    /** pbuf_chain(), whatever t is. */
    method PbufChain(h: Ptr, t: Ptr, ghost l: seq<nat>)
      requires Chain(m, h, l) && (t.Pb? ==> t.id in m)
      modifies this
      ensures h != Null && t != Null ==> l != [] && l[|l| - 1] in old(m)
                                         && t.id in Joined(old(m), l, t.id) && m == Ref(Joined(old(m), l, t.id), t.id)
      ensures h != Null && t != Null && t.id !in l ==> Joined(old(m), l, t.id) == Cat(old(m), l, t.id)
      ensures h == Null && t != Null ==> m == Ref(old(m), t.id)
      ensures t == Null ==> m == old(m)
    {
      PbufCat(h, t, l);
      if h != Null && t != Null { JoinedIs(old(m), l, t.id); }
      PbufRef(t);
    }

    /** pbuf_dechain() */
    method PbufDechain(p: Ptr, ghost l: seq<nat>) returns (r: Ptr)
      requires p.Pb? && Chain(m, p, l) && forall x :: x in l && x in m ==> m[x].ref > 0
      modifies this
      ensures |l| == 1 ==> m == old(m) && r == Null
      ensures |l| > 1 ==> l[0] in old(m) && l[1] in old(m) && m == Released(Unchained(old(m), l), l[1..])
      ensures |l| > 1 ==> var n := RunLength(Unchained(old(m), l), l[1..]);
                          r == if n % 0x100 > 0 then Null else Pb(l[1])
    {
      hide Released, RunLength;
      ChainTail(m, p, l, 0);
      var q := m[p.id].next;
      if q == Null {
        return Null;
      }
      ChainTail(m, p, l, 1);
      ChainDistinct(m, p, l, 0, 1);
      UnchainedChain(m, p.id, l);
      hide Chain;
      m := m[q.id := m[q.id].(totLen := Low16(m[p.id].totLen - |m[p.id].data|))];
      m := m[p.id := m[p.id].(totLen := Low16(|m[p.id].data|))];
      m := m[p.id := m[p.id].(next := Null)];
      var tailGone := PbufFree(q, l[1..]);
      r := if tailGone > 0 then Null else q;
    }


    /** pbuf_realloc() */
    method PbufRealloc(p: nat, newLen: u16, ghost l: seq<nat>)
      requires Chain(m, Pb(p), l) && TotOk(m, l) && forall x :: x in l && x in m ==> m[x].ref > 0
      modifies this
      ensures l != [] && l[0] in old(m) && l[CutAt(old(m), l, newLen)] in old(m)
      ensures m == Realloc(old(m), l, newLen)
    {
      hide TotOk, Flat, Released, CutAt, AddTot, Total, Stepping, Shortened, Chain;
      ghost var m0 := m;
      ChainStart(m, Pb(p), l);
      TotHead(m, l);
      assert l[CutAt(m0, l, newLen)] in l;
      if newLen >= m[p].totLen {
        return;
      }
      var q, rem := StepOver(p, newLen, l);
      ghost var i := CutAt(m0, l, newLen);
      SteppingEnd(m0, m, p, l, rem, newLen);
      ShortenedChain(m0, p, l, newLen);
      m := m[q := m[q].(data := m[q].data[..rem], totLen := rem)];
      ChainTail(m, Pb(p), l, i);
      Behind(m, p, l, i);
      ReleasedKeeps(m, l[i + 1..], q);
      if m[q].next != Null {
        var _ := PbufFree(m[q].next, l[i + 1..]);
      } else {
        ReleasedNone(m);
      }
      m := m[q := m[q].(next := Null)];
    }

    /** The loop of pbuf_realloc(). */
    method StepOver(p: nat, newLen: u16, ghost l: seq<nat>) returns (q: nat, rem: u16)
      requires Chain(m, Pb(p), l) && TotOk(m, l) && newLen < Total(m, l) && l != [] && l[0] == p && p in m
      modifies this
      ensures q == l[CutAt(old(m), l, newLen)] && Stepping(old(m), m, l, CutAt(old(m), l, newLen), rem, newLen)
    {
      hide TotOk, Flat, Stepping, Chain, CutAt, Total;
      ghost var m0, i := m, 0;
      var grow := newLen - m[p].totLen;
      q, rem := p, newLen;
      SteppingNone(m, l, newLen);
      SteppingHere(m0, m, p, l, 0, rem, newLen);
      while rem > |m[q].data|
        invariant 0 <= i <= CutAt(m0, l, newLen) && q == l[i] && q in m && Stepping(m0, m, l, i, rem, newLen)
        invariant rem > |m[q].data| <==> i < CutAt(m0, l, newLen)
        decreases |l| - i
      {
        SteppingHere(m0, m, p, l, i, rem, newLen);
        rem := rem - |m[q].data|;
        m := m[q := m[q].(totLen := Low16(m[q].totLen + grow))];
        SteppingHere(m0, m, p, l, i + 1, rem, newLen);
        q := m[q].next.id;
        i := i + 1;
      }
    }

    /** pbuf_alloc() of type PBUF_POOL: a chain of as many pbufs as the length takes, all held by one
        handle on the first, or nothing at all when the pool runs out. `ids` are the pbufs that
        memp_malloc() returns until the pool is empty, `first` and `bufsize` the bytes that fit the
        first and any other pbuf. */
    method PbufAllocPool(length: u16, first: nat, bufsize: nat, ids: seq<nat>, ghost handles: multiset<nat>)
      returns (p: Ptr, ghost n: nat)
      requires Sound(m, handles) && Unused(m, ids) && first > 0 && bufsize > 0
      modifies this
      ensures var rest := length - if length < first then length else first;
              if rest == 0 then n == 1 else n > 1 && (n - 2) * bufsize < rest <= (n - 1) * bufsize
      ensures p == if |ids| < n then Null else Pb(ids[0])
      ensures p == Null ==> m == old(m)
      ensures p.Pb? ==> Sound(m, More(handles, p.id)) && Chain(m, p, ids[..n]) && TotOk(m, ids[..n])
      ensures p.Pb? ==> Total(m, ids[..n]) == length && Grown(old(m), m, ids, n) && Sized(m, ids, n, first, bufsize, length)
    {
      hide Sound, Chain, TotOk, Grown, Unused, Filling, Flat, Released, Fresh, Sized;
      ghost var m0 := m;
      var len: u16 := if length < first then length else first;
      n := 1 + Buffers(length - len, bufsize);
      BuffersExact(length - len, bufsize);
      if |ids| == 0 {
        return Null, n;
      }
      p := Pb(ids[0]);
      var d: seq<byte> := seq(len, _ => 0);
      BuildFirst(m, handles, ids, length, d);
      m := m[ids[0] := Pbuf(Null, length, 1, d)];
      assert Sized(m, ids, 1, first, bufsize, length) by { SizedFirst(m, ids, first, bufsize, length); }
      var r, remLen: u16, k := ids[0], length - len, 1;
      while remLen > 0
        invariant 1 <= k <= |ids| && r == ids[k - 1] && Building(m0, m, handles, ids, k, remLen)
        invariant n == k + Buffers(remLen, bufsize)
        invariant Sized(m, ids, k, first, bufsize, length)
        invariant r in m && (remLen > 0 && k > 1 ==> |m[r].data| == bufsize)
        invariant ids[0] in m && m[ids[0]].totLen == length
        decreases remLen
      {
        if k == |ids| {
          BuiltRefs(m0, m, handles, ids, k, remLen);
          BuiltFree(m0, m, handles, ids, k, remLen);
          var _ := PbufFree(p, ids[..k]);
          return Null, n;
        }
        var q := ids[k];
        var l: u16 := if remLen < bufsize then remLen else bufsize;
        d := seq(l, _ => 0);
        BuildNext(m0, m, handles, ids, k, remLen, d);
        SizedOn(m, ids, k, remLen, d, first, bufsize, length);
        m := m[q := Pbuf(Null, remLen, 1, d)];
        m := m[r := m[r].(next := Pb(q))];
        remLen := remLen - l;
        r := q;
        k := k + 1;
      }
      BuiltOk(m0, m, handles, ids, k);
      BuiltTotal(m0, m, handles, ids, k);
    }
  }
}
