/** The blocks of the heap (lwip/core/mem.c) are determined by the allocations, and what an allocation
    is given stays its own. */
module HeapSpace {
  import opened HeapBlocks
  import opened Heap

  // ---------------------------------------------------------------- the free blocks

  /** The two lists agree up to block k, and block k starts at the same place in both. */
  ghost predicate Agree(b: seq<Block>, d: seq<Block>, k: nat) {
    k < |b| && k < |d| && b[..k] == d[..k] && b[k].at == d[k].at
  }

  /** A used block of one list is in the other, at the same place in the list if the lists agree so far. */
  lemma SameUsed(c: Conf, b: seq<Block>, d: seq<Block>, k: nat, i: nat) returns (j: nat)
    requires c.Ok() && Tiles(c, b) && Tiles(c, d) && Live(c, b) == Live(c, d)
    requires Agree(b, d, k) && k <= i < |b| && b[i].used
    ensures k <= j < |d| && d[j] == b[i] && Next(c, d, j) == Next(c, b, i) && (i == k <==> j == k)
  {
    hide Live;
    LiveHas(c, b, i);
    j := LiveIndex(c, d, (b[i].at, Next(c, b, i)));
    assert forall q :: 0 <= q < k ==> d[q] == d[..k][q] && b[q] == b[..k][q];
  }

  lemma AgreeOn(c: Conf, b: seq<Block>, d: seq<Block>, k: nat)
    requires c.Ok() && WellFormed(c, b) && WellFormed(c, d) && Live(c, b) == Live(c, d) && Agree(b, d, k)
    ensures b[k] == d[k]
    ensures k + 1 < |b| ==> k + 1 < |d| && b[k + 1].at == d[k + 1].at
  {
    hide Live;
    if b[k].used {
      var j := SameUsed(c, b, d, k, k);
      EndOfHeap(c, d, k);
      EndOfHeap(c, b, k);
    } else {
      if d[k].used { var j := SameUsed(c, d, b, k, k); }
      if k + 1 < |b| {
        var j := SameUsed(c, b, d, k, k + 1);
        assert d[k + 1].used && d[k + 1].at <= d[j].at;
        var i := SameUsed(c, d, b, k, k + 1);
        assert b[k + 1].at <= b[i].at;
      }
    }
  }

  lemma EndOfHeap(c: Conf, b: seq<Block>, k: nat)
    requires c.Ok() && Tiles(c, b) && k < |b|
    ensures Next(c, b, k) == c.size <==> k + 1 == |b|
  {
  }

  /** In a well-formed heap the allocations determine the block list: all that is not allocated is
      free, in blocks as large as they can be. So mem_free(), which keeps the heap well formed and ends
      one allocation, gives all its space back. */
  lemma LiveDetermines(c: Conf, b: seq<Block>, d: seq<Block>)
    requires c.Ok() && WellFormed(c, b) && WellFormed(c, d) && Live(c, b) == Live(c, d)
    ensures b == d
  {
    hide Live, WellFormed;
    assert Agree(b, d, 0) by { Starts(c, b); Starts(c, d); }
    var k := 0;
    while k + 1 < |b|
      invariant Agree(b, d, k)
    {
      AgreeOn(c, b, d, k);
      assert b[..k + 1] == b[..k] + [b[k]] && d[..k + 1] == d[..k] + [d[k]];
      k := k + 1;
    }
    AgreeOn(c, b, d, k);
    if k + 1 < |d| {
      assert b[..k] == d[..k];
      AgreeOn(c, d, b, k);
    }
    assert b == b[..k] + [b[k]] && d == d[..k] + [d[k]];
  }

  lemma Starts(c: Conf, b: seq<Block>)
    requires WellFormed(c, b)
    ensures b != [] && b[0].at == 0
  {
  }

  // ---------------------------------------------------------------- what mem_malloc() gives

  /** From the blocks b to the blocks t a request was granted at `offset`, up to `end`: out of a free
      block that ended at `all`, as much as was asked for and less than a header and the minimum more;
      what is left of the free block is one free block. */
  ghost predicate Granted(c: Conf, b: seq<Block>, t: seq<Block>, request: nat, offset: int, end: nat, all: nat) {
    var n := Round(c, request);
    && c.hdr <= offset && offset + n <= end <= all && end - offset < n + c.hdr + c.min
    && ((offset - c.hdr) as nat, all) in Spare(c, b)
    && Live(c, t) == Live(c, b) + {((offset - c.hdr) as nat, end)}
    && (end < all ==> (end, all) in Spare(c, t))
  }

  lemma Grants(c: Conf, b: seq<Block>, request: nat) returns (end: nat, all: nat)
    requires c.Ok() && WellFormed(c, b) && request < MEM_SIZE_T && Answer(c, b, request).At?
    ensures Granted(c, b, Malloced(c, b, request), request, Answer(c, b, request).offset, end, all)
    ensures WellFormed(c, Malloced(c, b, request))
  {
    RoundExact(c, request);
    hide Live, Spare, WellFormed, Taken, Round, Aligned, FindFit, Next, Conf.Ok;
    end, all := Takes(c, b, FindFit(c, b, Round(c, request), 0), Round(c, request));
  }

  /** The same for a block that fits. */
  lemma Takes(c: Conf, b: seq<Block>, i: nat, n: nat) returns (end: nat, all: nat)
    requires c.Ok() && WellFormed(c, b) && i < |b| && Fits(c, b, i, n) && c.min <= n && Aligned(n)
    ensures var t, at := Taken(c, b, i, n), b[i].at;
            && at + c.hdr + n <= end <= all && end - (at + c.hdr) < n + c.hdr + c.min
            && (at, all) in Spare(c, b) && Live(c, t) == Live(c, b) + {(at, end)} && (end < all ==> (end, all) in Spare(c, t))
            && WellFormed(c, t)
  {
    hide Live, Spare, WellFormed, Taken, Aligned;
    TakenLive(c, b, i, n);
    TakenWellFormed(c, b, i, n);
    SpareHas(c, b, i);
    end, all := Next(c, Taken(c, b, i, n), i), Next(c, b, i);
  }

  /** A mem_free() or mem_trim() of another block leaves an allocation as it is. */
  lemma LeavesAlone(c: Conf, b: seq<Block>, op: Op, x: (nat, nat))
    requires c.Ok() && WellFormed(c, b) && x in Live(c, b) && Foreign(op, {x.0})
    ensures WellFormed(c, Apply(c, b, op)) && x in Live(c, Apply(c, b, op))
  {
    ApplyWellFormed(c, b, op);
    hide Live, Taken, Trimmed, Freed, Round, Aligned, WellFormed, Conf.Ok;
    match op
    case Free(at) => if IndexOf(b, at) < |b| { FreeLeaves(c, b, IndexOf(b, at), x); }
    case Trim(at, size) => if IndexOf(b, at) < |b| { TrimLeaves(c, b, IndexOf(b, at), size, x); }
  }

  lemma FreeLeaves(c: Conf, b: seq<Block>, i: nat, x: (nat, nat))
    requires c.Ok() && WellFormed(c, b) && x in Live(c, b) && i < |b| && b[i].used && b[i].at != x.0
    ensures x in Live(c, Freed(b, i))
  {
    hide Live, Freed, WellFormed, Conf.Ok;
    FreedLive(c, b, i);
  }

  lemma TrimLeaves(c: Conf, b: seq<Block>, i: nat, size: nat, x: (nat, nat))
    requires c.Ok() && WellFormed(c, b) && x in Live(c, b) && i < |b| && b[i].used && b[i].at != x.0 && size < MEM_SIZE_T
    ensures x in Live(c, TrimCall(c, b, i, size))
  {
    RoundExact(c, size);
    hide Live, Spare, Trimmed, Round, Aligned, WellFormed, Conf.Ok;
    if Round(c, size) < Room(c, b, i) { TrimmedLive(c, b, i, Round(c, size)); }
  }

  /** So an allocation keeps its place and its end for as long as its owner leaves it alone. */
  lemma {:induction false} LiveStays(c: Conf, was: seq<Op>, log: seq<Op>, x: (nat, nat))
    requires c.Ok() && WellFormed(c, ApplyAll(c, [Block(0, false)], was)) && x in Live(c, ApplyAll(c, [Block(0, false)], was))
    requires Grew(was, log, {x.0})
    ensures WellFormed(c, ApplyAll(c, [Block(0, false)], log)) && x in Live(c, ApplyAll(c, [Block(0, false)], log))
    decreases |log|
  {
    hide Live, WellFormed, Apply;
    if |log| > |was| {
      var before := log[..|log| - 1];
      assert before[..|was|] == log[..|was|];
      LiveStays(c, was, before, x);
      LeavesAlone(c, ApplyAll(c, [Block(0, false)], before), log[|log| - 1], x);
    } else {
      assert log == was;
    }
  }

  /** What Linear says of a mem_malloc() that returned a block. */
  lemma LinearGrants(c: Conf, was: seq<Op>, log: seq<Op>, turn: nat, request: nat, r: Pointer) returns (end: nat, all: nat)
    requires c.Ok() && Linear(c, was, log, turn, request, r) && r.At? && request < MEM_SIZE_T
    requires WellFormed(c, ApplyAll(c, [Block(0, false)], log[..turn]))
    ensures var start := [Block(0, false)];
            && Granted(c, ApplyAll(c, start, log[..turn]), ApplyAll(c, start, log[..turn + 1]), request, r.offset, end, all)
            && r.offset >= c.hdr && ((r.offset - c.hdr) as nat, end) in Live(c, ApplyAll(c, start, log))
  {
    hide Live, Spare, WellFormed, Answer, Malloced, Round, Grew;
    var start := [Block(0, false)];
    var b := ApplyAll(c, start, log[..turn]);
    assert log[..turn + 1][..turn] == log[..turn] && log[..turn + 1][turn] == log[turn];
    end, all := Grants(c, b, request);
    LiveStays(c, log[..turn + 1], log, ((r.offset - c.hdr) as nat, end));
  }
}
