/** The heap of lwip/core/mem.c with its in-band headers: `ram` maps an offset to the struct mem that
    is stored there. */
module Heap {
  import opened HeapBlocks

  datatype Mem = Mem(next: nat, prev: nat, used: bool)

  datatype Pointer = Null | At(offset: int)

  /** The header of block i. */
  function Header(c: Conf, b: seq<Block>, i: nat): Mem
    requires i < |b|
  {
    Mem(Next(c, b, i), if i == 0 then 0 else b[i - 1].at, b[i].used)
  }

  /** The header of block i is in memory. */
  ghost predicate Linked(c: Conf, m: seq<Mem>, b: seq<Block>, i: nat)
    requires i < |b|
  {
    b[i].at < c.size < |m| && m[b[i].at] == Header(c, b, i)
  }

  /** The memory holds exactly the headers of the blocks `b`, linked both ways, and the sentinel
      at the end, whose prev field says nothing. */
  ghost predicate Holds(c: Conf, m: seq<Mem>, b: seq<Block>) {
    && |m| == c.size + 1
    && (forall i :: 0 <= i < |b| ==> Linked(c, m, b, i))
    && m[c.size].used && m[c.size].next == c.size
  }

  /** `lfree` is a free block or the end of the heap, and every block below it is used. While a
      mem_malloc() that just took the block `held` is still looking, lfree may also be that block. */
  ghost predicate Marks(c: Conf, b: seq<Block>, lfree: nat, held: set<nat>) {
    && (lfree == c.size || exists k :: 0 <= k < |b| && b[k].at == lfree && (b[k].used ==> lfree in held))
    && (forall j :: 0 <= j < |b| && b[j].at < lfree ==> b[j].used)
  }

  /** What a header and the fields of its neighbours say. */
  lemma Read(c: Conf, m: seq<Mem>, b: seq<Block>, i: nat)
    requires c.Ok() && Tiles(c, b) && Holds(c, m, b) && i < |b|
    ensures b[i].at < Next(c, b, i) <= c.size < |m|
    ensures m[b[i].at].next == Next(c, b, i) && m[b[i].at].used == b[i].used
    ensures m[Next(c, b, i)].used == if i + 1 < |b| then b[i + 1].used else true
    ensures i + 1 < |b| ==> b[i + 1].at < c.size && m[b[i + 1].at].next == Next(c, b, i + 1)
    ensures if i == 0 then m[b[i].at].prev == b[i].at else
            m[b[i].at].prev == b[i - 1].at < b[i].at && m[b[i - 1].at].used == b[i - 1].used
  {
    hide Aligned;
    assert Linked(c, m, b, i);
    if i > 0 { assert Linked(c, m, b, i - 1); }
    if i + 1 < |b| { assert Linked(c, m, b, i + 1); }
  }

  /** At rest lfree is the lowest free block, or the end. */
  lemma MarksLowest(c: Conf, b: seq<Block>, lfree: nat)
    requires c.Ok() && Tiles(c, b)
    ensures Marks(c, b, lfree, {}) <==> lfree == LowestFree(c, b)
  {
    var i := FindLowestFree(c, b);
    hide Aligned, LowestFree;
    if i < |b| { assert forall j :: i < j < |b| ==> b[i].at < b[j].at; }
    if Marks(c, b, lfree, {}) && lfree != c.size {
      var k :| 0 <= k < |b| && b[k].at == lfree && !b[k].used;
    }
  }

  // ---------------------------------------------------------------- effects of the writes

  /** A write elsewhere leaves a header alone. */
  lemma Elsewhere(c: Conf, b: seq<Block>, i: nat, k: nat)
    requires c.Ok() && Tiles(c, b) && i < |b| && k < |b| && i != k
    ensures b[i].at != b[k].at && b[i].at < c.size && b[i].at != Next(c, b, i)
    ensures i != k + 1 ==> b[i].at != Next(c, b, k)
  {
    hide Aligned;
    if k + 1 < |b| && i != k + 1 { Distinct(c, b, i, k + 1); }
  }

  /** Store to the used flag of block k. */
  lemma HoldsMark(c: Conf, m: seq<Mem>, b: seq<Block>, k: nat, used: bool)
    requires c.Ok() && Tiles(c, b) && Holds(c, m, b) && k < |b|
    ensures Holds(c, m[b[k].at := m[b[k].at].(used := used)], b[k := Block(b[k].at, used)])
  {
    hide Tiles, Conf.Ok;
    assert Linked(c, m, b, k);
    var b1 := b[k := Block(b[k].at, used)];
    var m1 := m[b[k].at := m[b[k].at].(used := used)];
    forall i | 0 <= i < |b1| ensures Linked(c, m1, b1, i) {
      assert Linked(c, m, b, i);
      if i != k { Elsewhere(c, b, i, k); }
    }
  }

  /** Unlink block k: its predecessor points past it, and its successor back. */
  lemma HoldsWithout(c: Conf, m: seq<Mem>, b: seq<Block>, k: nat)
    requires c.Ok() && Tiles(c, b) && Holds(c, m, b) && 0 < k < |b|
    ensures var p, n := b[k - 1].at, Next(c, b, k);
            && p < |m| && n < |m|
            && var m1 := m[p := m[p].(next := n)];
            Holds(c, m1[n := m1[n].(prev := p)], Without(b, k))
  {
    hide Tiles, Conf.Ok;
    var r := Without(b, k);
    assert Linked(c, m, b, k - 1) && Linked(c, m, b, k);
    if k + 1 < |b| { assert Linked(c, m, b, k + 1); }
    var p, n := b[k - 1].at, Next(c, b, k);
    var m1 := m[p := m[p].(next := n)];
    var m2 := m1[n := m1[n].(prev := p)];
    Elsewhere(c, b, k - 1, k);
    forall i | 0 <= i < |r| ensures Linked(c, m2, r, i) {
      var j := if i < k then i else i + 1;
      assert Linked(c, m, b, j) && r[i] == b[j];
      if j != k - 1 { Elsewhere(c, b, j, k - 1); }
      Elsewhere(c, b, j, k);
    }
  }

  /** Put a new block behind block k. */
  lemma HoldsInsert(c: Conf, m: seq<Mem>, b: seq<Block>, k: nat, x: Block)
    requires c.Ok() && Tiles(c, b) && Holds(c, m, b) && k < |b|
    requires b[k].at < x.at < Next(c, b, k)
    ensures var p, n := b[k].at, Next(c, b, k);
            && p < |m| && n < |m|
            && var m1 := m[x.at := Mem(n, p, x.used)];
            var m2 := m1[p := m1[p].(next := x.at)];
            Holds(c, if n != c.size then m2[n := m2[n].(prev := x.at)] else m2, b[..k + 1] + [x] + b[k + 1..])
  {
    hide Tiles, Conf.Ok;
    var r := b[..k + 1] + [x] + b[k + 1..];
    assert Linked(c, m, b, k);
    if k + 1 < |b| { assert Linked(c, m, b, k + 1); }
    var p, n := b[k].at, Next(c, b, k);
    var m1 := m[x.at := Mem(n, p, x.used)];
    var m2 := m1[p := m1[p].(next := x.at)];
    var m3 := if n != c.size then m2[n := m2[n].(prev := x.at)] else m2;
    forall i | 0 <= i < |r| ensures Linked(c, m3, r, i) {
      if i != k + 1 {
        var j := if i <= k then i else i - 1;
        assert Linked(c, m, b, j) && r[i] == b[j];
        Between(c, b, k, x.at, j);
        if j != k { Elsewhere(c, b, j, k); }
      }
    }
  }

  /** No block starts at an offset strictly inside block k. */
  lemma Between(c: Conf, b: seq<Block>, k: nat, x: nat, i: nat)
    requires c.Ok() && Tiles(c, b) && k < |b| && i < |b| && b[k].at < x < Next(c, b, k)
    ensures b[i].at != x && x < c.size
  {
    hide Aligned;
    if i > k + 1 { assert b[k + 1].at + c.hdr + c.min <= b[i].at; }
    if i < k { assert b[i].at + c.hdr + c.min <= b[k].at; }
    if k + 1 < |b| { assert b[k + 1].at + c.hdr + c.min <= c.size; }
  }

  /** Move block k + 1 down to x. */
  lemma HoldsMove(c: Conf, m: seq<Mem>, b: seq<Block>, k: nat, x: Block)
    requires c.Ok() && Tiles(c, b) && Holds(c, m, b) && k + 1 < |b|
    requires b[k].at < x.at < b[k + 1].at
    ensures var p, n := b[k].at, Next(c, b, k + 1);
            && p < |m| && n < |m|
            && var m1 := m[x.at := Mem(n, p, x.used)];
            var m2 := m1[p := m1[p].(next := x.at)];
            Holds(c, if n != c.size then m2[n := m2[n].(prev := x.at)] else m2, b[k + 1 := x])
  {
    hide Tiles, Conf.Ok;
    var r := b[k + 1 := x];
    assert Linked(c, m, b, k) && Linked(c, m, b, k + 1);
    if k + 2 < |b| { assert Linked(c, m, b, k + 2); }
    var p, n := b[k].at, Next(c, b, k + 1);
    var m1 := m[x.at := Mem(n, p, x.used)];
    var m2 := m1[p := m1[p].(next := x.at)];
    var m3 := if n != c.size then m2[n := m2[n].(prev := x.at)] else m2;
    Elsewhere(c, b, k, k + 1);
    Between(c, b, k, x.at, k);
    if k + 2 < |b| { Between(c, b, k, x.at, k + 2); }
    forall i | 0 <= i < |r| ensures Linked(c, m3, r, i) {
      if i != k + 1 {
        assert Linked(c, m, b, i) && r[i] == b[i];
        Between(c, b, k, x.at, i);
        if i != k { Elsewhere(c, b, i, k); }
        Elsewhere(c, b, i, k + 1);
      }
    }
  }

  // ---------------------------------------------------------------- the mark

  lemma MarksFree(c: Conf, b: seq<Block>, i: nat, lfree: nat, held: set<nat>)
    requires Marks(c, b, lfree, held) && i < |b| && b[i].at < c.size
    ensures Marks(c, b[i := Block(b[i].at, false)], if b[i].at < lfree then b[i].at else lfree, held)
  {
    var r := b[i := Block(b[i].at, false)];
    if b[i].at < lfree {
      assert r[i].at == b[i].at;
    } else if lfree != c.size {
      var k :| 0 <= k < |b| && b[k].at == lfree && (b[k].used ==> lfree in held);
      assert r[k].at == lfree;
    }
  }

  lemma MarksWithout(c: Conf, b: seq<Block>, k: nat, lfree: nat, held: set<nat>)
    requires c.Ok() && Tiles(c, b) && Marks(c, b, lfree, held) && 0 < k < |b| && !b[k - 1].used && !b[k].used
    ensures lfree <= b[k - 1].at < b[k].at
    ensures Marks(c, Without(b, k), lfree, held)
  {
    hide Aligned;
    var r := Without(b, k);
    assert forall i :: 0 <= i < |r| ==> r[i] == b[if i < k then i else i + 1];
    if lfree != c.size {
      var q :| 0 <= q < |b| && b[q].at == lfree && (b[q].used ==> lfree in held);
      assert q != k;
      assert r[if q < k then q else q - 1] == b[q];
    }
  }

  lemma MarksMove(c: Conf, b: seq<Block>, k: nat, x: Block, lfree: nat, held: set<nat>)
    requires c.Ok() && Tiles(c, b) && Marks(c, b, lfree, held) && k + 1 < |b| && !b[k + 1].used && !x.used
    requires b[k].at < x.at < b[k + 1].at
    ensures Marks(c, b[k + 1 := x], if lfree == b[k + 1].at then x.at else lfree, held)
  {
    hide Aligned;
    var r := b[k + 1 := x];
    if lfree == b[k + 1].at {
      assert r[k + 1].at == x.at;
    } else if lfree != c.size {
      var q :| 0 <= q < |b| && b[q].at == lfree && (b[q].used ==> lfree in held);
      assert r[q] == b[q];
      assert lfree < b[k + 1].at && q <= k;
      if q < k { assert b[q].at < b[k].at; }
    }
  }

  lemma MarksInsert(c: Conf, b: seq<Block>, k: nat, x: Block, lfree: nat, held: set<nat>)
    requires Marks(c, b, lfree, held) && k < |b| && !x.used
    ensures Marks(c, b[..k + 1] + [x] + b[k + 1..], if x.at < lfree then x.at else lfree, held)
  {
    var r := b[..k + 1] + [x] + b[k + 1..];
    assert forall i :: 0 <= i < |r| ==> r[i] == if i <= k then b[i] else if i == k + 1 then x else b[i - 1];
    if x.at < lfree {
      assert r[k + 1] == x;
    } else if lfree != c.size {
      var q :| 0 <= q < |b| && b[q].at == lfree && (b[q].used ==> lfree in held);
      assert r[if q <= k then q else q + 1] == b[q];
    }
  }

  /** Taking a free block: if it was the lowest, lfree points at a used block for a while. */
  lemma MarksTake(c: Conf, b: seq<Block>, i: nat, lfree: nat)
    requires Marks(c, b, lfree, {}) && i < |b| && !b[i].used
    ensures Marks(c, b[i := Block(b[i].at, true)], lfree, {b[i].at}) && lfree <= b[i].at
  {
    var r := b[i := Block(b[i].at, true)];
    if lfree != c.size {
      var q :| 0 <= q < |b| && b[q].at == lfree && !b[q].used;
      assert r[q].at == lfree;
    }
  }

  // ---------------------------------------------------------------- ownership

  /** Offsets of the allocations. */
  ghost function Owned(c: Conf, b: seq<Block>): set<nat> {
    set x | x in Live(c, b) :: x.0
  }

  lemma OwnedIndex(c: Conf, b: seq<Block>, at: nat) returns (i: nat)
    requires c.Ok() && Tiles(c, b)
    ensures i == IndexOf(b, at)
    ensures i < |b| <==> at in Owned(c, b)
    ensures i < |b| ==> b[i] == Block(at, true)
  {
    hide Tiles, Live;
    i := IndexOf(b, at);
    if i < |b| {
      LiveHas(c, b, i);
      assert (at, Next(c, b, i)).0 in Owned(c, b);
    }
    if at in Owned(c, b) {
      var x :| x in Live(c, b) && x.0 == at;
      var j := LiveIndex(c, b, x);
    }
  }

  /** An allocation is known by its offset. */
  lemma LiveByOffset(c: Conf, b: seq<Block>, x: (nat, nat), y: (nat, nat))
    requires c.Ok() && Tiles(c, b) && x in Live(c, b) && y in Live(c, b) && x.0 == y.0
    ensures x == y
  {
    hide Tiles, Live;
    var i := LiveIndex(c, b, x);
    var j := LiveIndex(c, b, y);
    if i != j { Distinct(c, b, i, j); }
  }

  lemma FreedOwned(c: Conf, b: seq<Block>, i: nat)
    requires c.Ok() && WellFormed(c, b) && i < |b| && b[i].used
    ensures Owned(c, Freed(b, i)) == Owned(c, b) - {b[i].at}
  {
    FreedLive(c, b, i);
    LiveHas(c, b, i);
    assert Tiles(c, b);
    hide Live, Freed, Tiles, Plugged;
    forall x | x in Live(c, b) && x.0 == b[i].at ensures x == (b[i].at, Next(c, b, i)) {
      LiveByOffset(c, b, x, (b[i].at, Next(c, b, i)));
    }
    forall a | a in Owned(c, b) - {b[i].at} ensures a in Owned(c, Freed(b, i)) {
      var x :| x in Live(c, b) && x.0 == a;
      assert x in Live(c, Freed(b, i));
    }
  }

  lemma TrimmedOwned(c: Conf, b: seq<Block>, i: nat, size: nat)
    requires c.Ok() && WellFormed(c, b) && i < |b| && b[i].used && c.min <= size < Room(c, b, i) && Aligned(size)
    ensures Owned(c, Trimmed(c, b, i, size)) == Owned(c, b)
  {
    TrimmedLive(c, b, i, size);
    LiveHas(c, b, i);
    hide Live, Trimmed, WellFormed, Spare, Aligned, Owned;
    SwapOwned(c, b, Trimmed(c, b, i, size), (b[i].at, Next(c, b, i)), (b[i].at, Next(c, Trimmed(c, b, i, size), i)));
  }

  /** An allocation that changes its end has the same owner. */
  lemma SwapOwned(c: Conf, b: seq<Block>, t: seq<Block>, was: (nat, nat), now: (nat, nat))
    requires was in Live(c, b) && Live(c, t) == Live(c, b) - {was} + {now} && was.0 == now.0
    ensures Owned(c, t) == Owned(c, b)
  {
    hide Live;
    assert now in Live(c, t);
    forall x | x in Live(c, b) ensures x.0 in Owned(c, t) {
      if x != was { assert x in Live(c, t); }
    }
    forall x | x in Live(c, t) ensures x.0 in Owned(c, b) {
      if x != now { assert x in Live(c, b); }
    }
  }

  lemma TakenOwned(c: Conf, b: seq<Block>, i: nat, size: nat)
    requires c.Ok() && WellFormed(c, b) && i < |b| && Fits(c, b, i, size) && c.min <= size && Aligned(size)
    ensures b[i].at !in Owned(c, b) && Owned(c, Taken(c, b, i, size)) == Owned(c, b) + {b[i].at}
  {
    TakenLive(c, b, i, size);
    hide Live, Taken, WellFormed;
    var t := Taken(c, b, i, size);
    var mine := (b[i].at, Next(c, t, i));
    assert mine in Live(c, t);
    forall x | x in Live(c, b) ensures x.0 != b[i].at { assert (x.0, x.1) == x; }
    forall a | a in Owned(c, b) ensures a in Owned(c, t) {
      var x :| x in Live(c, b) && x.0 == a;
      assert x in Live(c, t);
    }
  }

  /** One more call at the end of a run. */
  lemma Logged(c: Conf, log: seq<Op>, op: Op)
    ensures var start := [Block(0, false)];
            ApplyAll(c, start, log + [op]) == Apply(c, ApplyAll(c, start, log), op)
  {
    assert (log + [op])[..|log|] == log;
  }

  // ---------------------------------------------------------------- the heap invariant

  /** The memory `m` and lfree of a heap whose blocks are `b`. */
  ghost predicate Sound(c: Conf, m: seq<Mem>, b: seq<Block>, lfree: nat, held: set<nat>) {
    c.Ok() && Tiles(c, b) && Holds(c, m, b) && Marks(c, b, lfree, held)
  }

  /** The blocks are what the calls `log` make of a fresh heap, and the allocations are those that
      callers own, and the one that a running mem_malloc() has taken and not returned. */
  ghost predicate Explained(c: Conf, b: seq<Block>, owners: set<nat>, log: seq<Op>, held: set<nat>) {
    && c.Ok() && WellFormed(c, b) && b == ApplyAll(c, [Block(0, false)], log)
    && Owned(c, b) == owners + held && owners !! held
  }

  lemma FreeExplained(c: Conf, b: seq<Block>, owners: set<nat>, log: seq<Op>, held: set<nat>, at: nat)
    returns (i: nat)
    requires Explained(c, b, owners, log, held) && at in owners
    ensures i < |b| && b[i] == Block(at, true)
    ensures Explained(c, Freed(b, i), owners - {at}, log + [Free(at)], held) && Freed(b, i) == Apply(c, b, Free(at))
  {
    i := OwnedIndex(c, b, at);
    hide Owned, ApplyAll, Freed;
    FreedWellFormed(c, b, i);
    FreedOwned(c, b, i);
    Logged(c, log, Free(at));
  }

  lemma TrimExplained(c: Conf, b: seq<Block>, owners: set<nat>, log: seq<Op>, held: set<nat>, at: nat, newsize: nat)
    returns (i: nat)
    requires Explained(c, b, owners, log, held) && at in owners && newsize < MEM_SIZE_T
    ensures i == IndexOf(b, at) < |b| && b[i] == Block(at, true)
    ensures Explained(c, TrimCall(c, b, i, newsize), owners, log + [Trim(at, newsize)], held)
  {
    i := OwnedIndex(c, b, at);
    RoundExact(c, newsize);
    hide Owned, ApplyAll, Trimmed, Round, Aligned;
    var n := Round(c, newsize);
    if n <= c.size && n < Room(c, b, i) {
      TrimmedWellFormed(c, b, i, n);
      TrimmedOwned(c, b, i, n);
    }
    Logged(c, log, Trim(at, newsize));
  }

  lemma AlignedRest(c: Conf, b: seq<Block>, i: nat, size: nat)
    requires c.Ok() && Tiles(c, b) && i < |b| && Aligned(size)
    ensures Aligned(b[i].at + c.hdr + size)
  {
    hide Aligned;
    AlignedSum(b[i].at, c.hdr, size);
  }

  lemma AlignedSum(x: nat, y: nat, z: nat)
    requires Aligned(x) && Aligned(y) && Aligned(z)
    ensures Aligned(x + y + z)
  {
  }

  lemma AlignedZero()
    ensures Aligned(0)
  {
  }

  /** mem_trim() moves the free block behind block i down. */
  lemma SoundMove(c: Conf, m: seq<Mem>, b: seq<Block>, lfree: nat, held: set<nat>, i: nat, size: nat)
    requires Sound(c, m, b, lfree, held) && i + 1 < |b| && !b[i + 1].used
    requires c.min <= size < Room(c, b, i) && Aligned(size)
    ensures b[i + 1].at < |m| && m[b[i].at].next == b[i + 1].at && m[b[i + 1].at].next < |m|
    ensures var p, ptr2, n := b[i].at, b[i].at + c.hdr + size, m[b[i + 1].at].next;
            var m1 := m[ptr2 := Mem(n, p, false)];
            var m2 := m1[p := m1[p].(next := ptr2)];
            Sound(c, if n != c.size then m2[n := m2[n].(prev := ptr2)] else m2, b[i + 1 := Block(ptr2, false)],
                  if lfree == b[i + 1].at then ptr2 else lfree, held)
  {
    hide Tiles, Holds, Marks, Aligned;
    AlignedRest(c, b, i, size);
    var x := Block(b[i].at + c.hdr + size, false);
    Read(c, m, b, i);
    Read(c, m, b, i + 1);
    HoldsMove(c, m, b, i, x);
    TilesMove(c, b, i + 1, x);
    MarksMove(c, b, i, x, lfree, held);
  }

  /** mem_trim() and mem_malloc() put a free block behind block i. */
  lemma SoundInsert(c: Conf, m: seq<Mem>, b: seq<Block>, lfree: nat, held: set<nat>, i: nat, size: nat)
    requires Sound(c, m, b, lfree, held) && i < |b|
    requires c.min <= size && size + c.hdr + c.min <= Room(c, b, i) && Aligned(size)
    ensures b[i].at + c.hdr + size < |m| && m[b[i].at].next < |m|
    ensures var p, ptr2, n := b[i].at, b[i].at + c.hdr + size, m[b[i].at].next;
            var m1 := m[ptr2 := Mem(n, p, false)];
            var m2 := m1[p := m1[p].(next := ptr2)];
            Sound(c, if n != c.size then m2[n := m2[n].(prev := ptr2)] else m2,
                  b[..i + 1] + [Block(ptr2, false)] + b[i + 1..], if ptr2 < lfree then ptr2 else lfree, held)
  {
    hide Tiles, Holds, Marks, Aligned;
    AlignedRest(c, b, i, size);
    var x := Block(b[i].at + c.hdr + size, false);
    Read(c, m, b, i);
    HoldsInsert(c, m, b, i, x);
    TilesInsert(c, b, i, x);
    MarksInsert(c, b, i, x, lfree, held);
  }

  lemma ReadSound(c: Conf, m: seq<Mem>, b: seq<Block>, lfree: nat, held: set<nat>, i: nat)
    requires Sound(c, m, b, lfree, held) && i < |b|
    ensures b[i].at < Next(c, b, i) <= c.size < |m|
    ensures m[b[i].at].next == Next(c, b, i) && m[b[i].at].used == b[i].used
    ensures m[Next(c, b, i)].used == if i + 1 < |b| then b[i + 1].used else true
  {
    hide Tiles, Holds, Marks;
    Read(c, m, b, i);
  }

  lemma ConfOk(c: Conf, m: seq<Mem>, b: seq<Block>, lfree: nat, held: set<nat>)
    requires Sound(c, m, b, lfree, held)
    ensures c.Ok() && Tiles(c, b)
  {
  }

  // ---------------------------------------------------------------- mem_malloc

  /** What mem_malloc() returns on the blocks `b`. */
  function Answer(c: Conf, b: seq<Block>, request: nat): Pointer {
    var n := Round(c, request);
    var i := FindFit(c, b, n, 0);
    if request == 0 || n > c.size || i == |b| then Null else At(b[i].at + c.hdr)
  }

  /** mem_malloc() fails exactly when nothing was asked for or no free block has room; then nothing
      changes. Otherwise it gives the lowest block with room, aligned and inside the heap. */
  lemma AnswerExact(c: Conf, b: seq<Block>, request: nat) returns (i: nat)
    requires c.Ok() && WellFormed(c, b) && request < MEM_SIZE_T
    ensures var n, r := Round(c, request), Answer(c, b, request);
            && (r == Null <==> request == 0 || forall i :: 0 <= i < |b| ==> !Fits(c, b, i, n))
            && (r == Null ==> Malloced(c, b, request) == b)
            && (r.At? ==> FirstFit(c, b, i, n) && r.offset == b[i].at + c.hdr && Aligned(r.offset)
                          && r.offset + n <= Next(c, b, i) <= c.size)
  {
    var n := Round(c, request);
    WellFormedTiles(c, b);
    hide Round, WellFormed, Tiles, Aligned;
    i := FindFit(c, b, n, 0);
    assert i < |b| ==> Fits(c, b, i, n);
    if i < |b| { Inside(c, b, i); }
  }

  lemma Inside(c: Conf, b: seq<Block>, i: nat)
    requires c.Ok() && Tiles(c, b) && i < |b|
    ensures Aligned(b[i].at + c.hdr) && Next(c, b, i) <= c.size
  {
    hide Aligned;
    assert Aligned(0) by { AlignedZero(); }
    AlignedSum(b[i].at, c.hdr, 0);
  }

  /** The allocation that mem_malloc() gives: at least the size asked for, and apart from all others,
      which stay as they are. */
  lemma AnswerDisjoint(c: Conf, b: seq<Block>, request: nat) returns (mine: (nat, nat))
    requires c.Ok() && WellFormed(c, b) && request < MEM_SIZE_T && Answer(c, b, request).At?
    ensures var o := Answer(c, b, request).offset;
            o == mine.0 + c.hdr && mine.1 >= o + Round(c, request)
    ensures Live(c, Malloced(c, b, request)) == Live(c, b) + {mine}
    ensures forall x :: x in Live(c, b) ==> x.1 <= mine.0 || mine.1 <= x.0
  {
    RoundExact(c, request);
    hide Live, WellFormed, Taken, Round, Aligned;
    var n := Round(c, request);
    var i := FindFit(c, b, n, 0);
    TakenLive(c, b, i, n);
    TakenWellFormed(c, b, i, n);
    var t := Malloced(c, b, request);
    mine := (b[i].at, Next(c, t, i));
    assert Tiles(c, t) by { WellFormedTiles(c, t); }
    hide Tiles;
    assert mine in Live(c, t);
    forall x | x in Live(c, b) ensures x.1 <= mine.0 || mine.1 <= x.0 {
      assert x == (x.0, x.1) && x in Live(c, t);
      LiveDisjoint(c, t, x, mine);
    }
  }

  lemma WellFormedTiles(c: Conf, b: seq<Block>)
    requires WellFormed(c, b)
    ensures Tiles(c, b)
  {
  }

  /** Freeing what mem_malloc() just returned undoes it: the block list is as before, and so is
      lfree, which at rest is determined by it. */
  lemma MallocThenFree(c: Conf, b: seq<Block>, request: nat)
    requires c.Ok() && WellFormed(c, b) && request < MEM_SIZE_T && Answer(c, b, request).At?
    ensures var o := Answer(c, b, request).offset;
            o >= c.hdr && Apply(c, Apply(c, b, Malloc(request)), Free(o - c.hdr)) == b
  {
    RoundExact(c, request);
    var n := Round(c, request);
    var i := FindFit(c, b, n, 0);
    hide Round, Aligned;
    TakenWellFormed(c, b, i, n);
    TakenLive(c, b, i, n);
    hide Live, Plugged, Freed, Taken;
    FreeUndoesMalloc(c, b, i, n);
    var t := Taken(c, b, i, n);
    var k := IndexOf(t, b[i].at);
    if k != i { Distinct(c, t, k, i); }
  }

  /** lfree at rest. */
  lemma LfreeIsLowest(c: Conf, m: seq<Mem>, b: seq<Block>, lfree: nat)
    requires Sound(c, m, b, lfree, {})
    ensures lfree == LowestFree(c, b)
  {
    MarksLowest(c, b, lfree);
  }

  lemma TakeExplained(c: Conf, b: seq<Block>, owners: set<nat>, log: seq<Op>, request: nat, i: nat)
    requires Explained(c, b, owners, log, {}) && 0 < request < MEM_SIZE_T && Round(c, request) <= c.size
    requires i == FindFit(c, b, Round(c, request), 0) < |b|
    ensures b[i].at !in owners && Answer(c, b, request) == At(b[i].at + c.hdr)
    ensures Explained(c, Taken(c, b, i, Round(c, request)), owners, log + [Malloc(request)], {b[i].at})
  {
    RoundExact(c, request);
    hide Owned, ApplyAll, Taken, Round, Aligned;
    TakenWellFormed(c, b, i, Round(c, request));
    TakenOwned(c, b, i, Round(c, request));
    Logged(c, log, Malloc(request));
  }

  lemma FailExplained(c: Conf, b: seq<Block>, owners: set<nat>, log: seq<Op>, request: nat)
    requires Explained(c, b, owners, log, {})
    requires Answer(c, b, request) == Null
    ensures Explained(c, b, owners, log + [Malloc(request)], {})
  {
    hide Owned, ApplyAll, Round, WellFormed, FindFit;
    Logged(c, log, Malloc(request));
  }

  /** Store to the used flag of a free block. */
  lemma SoundTake(c: Conf, m: seq<Mem>, b: seq<Block>, lfree: nat, i: nat)
    requires Sound(c, m, b, lfree, {}) && i < |b| && !b[i].used
    ensures b[i].at < |m| && lfree <= b[i].at
    ensures Sound(c, m[b[i].at := m[b[i].at].(used := true)], b[i := Block(b[i].at, true)], lfree, {b[i].at})
  {
    hide Tiles, Holds, Marks;
    Read(c, m, b, i);
    HoldsMark(c, m, b, i, true);
    TilesMark(c, b, i, true);
    MarksTake(c, b, i, lfree);
  }

  /** lfree is set to a free block, or the end, with only used blocks below. */
  lemma SoundEnd(c: Conf, m: seq<Mem>, b: seq<Block>, lfree: nat, held: set<nat>, j: nat)
    requires Sound(c, m, b, lfree, held) && j <= |b| && (forall q :: 0 <= q < j ==> b[q].used)
    requires j < |b| ==> !b[j].used
    ensures Sound(c, m, b, Place(c, b, j), {}) && Sound(c, m, b, Place(c, b, j), held)
  {
    hide Holds, Aligned;
  }

  /** Offset of block j, or the end of the heap. */
  function Place(c: Conf, b: seq<Block>, j: nat): nat
    requires j <= |b|
  {
    if j < |b| then b[j].at else c.size
  }

  /** lfree already points elsewhere than at the block just taken. */
  lemma SoundElsewhere(c: Conf, m: seq<Mem>, b: seq<Block>, lfree: nat, mem: nat)
    requires Sound(c, m, b, lfree, {mem}) && lfree != mem
    ensures Sound(c, m, b, lfree, {})
  {
  }

  /** The block lfree points at, and that all blocks below are used. */
  lemma MarkIndex(c: Conf, m: seq<Mem>, b: seq<Block>, lfree: nat, held: set<nat>) returns (j: nat)
    requires Sound(c, m, b, lfree, held)
    ensures j <= |b| && lfree == Place(c, b, j)
    ensures forall q :: 0 <= q < j ==> b[q].used
  {
    hide Holds, Aligned;
    if lfree == c.size {
      j := |b|;
    } else {
      j :| 0 <= j < |b| && b[j].at == lfree && (b[j].used ==> lfree in held);
    }
  }

  /** Beyond the last offset the scan looks at nothing fits. */
  lemma NothingFits(c: Conf, m: seq<Mem>, b: seq<Block>, lfree: nat, n: nat, j: nat)
    requires Sound(c, m, b, lfree, {}) && j <= |b| && n <= c.size
    requires c.size - n <= Place(c, b, j) && forall q :: 0 <= q < j ==> !Fits(c, b, q, n)
    ensures FindFit(c, b, n, 0) == |b|
  {
    hide Holds, Marks, Aligned;
    forall q | j <= q < |b| ensures !Fits(c, b, q, n) {
      if q > j { assert b[j].at < b[q].at; }
    }
  }

  lemma ReadPlace(c: Conf, m: seq<Mem>, b: seq<Block>, lfree: nat, held: set<nat>, j: nat)
    requires Sound(c, m, b, lfree, held) && j <= |b|
    ensures Place(c, b, j) < |m|
    ensures if j < |b| then Place(c, b, j) != c.size && m[Place(c, b, j)].used == b[j].used else Place(c, b, j) == c.size
  {
    hide Sound;
    if j < |b| {
      ReadSound(c, m, b, lfree, held, j);
    } else {
      ConfOk(c, m, b, lfree, held);
      assert Holds(c, m, b) by { HoldsOf(c, m, b, lfree, held); }
    }
  }

  lemma HoldsOf(c: Conf, m: seq<Mem>, b: seq<Block>, lfree: nat, held: set<nat>)
    requires Sound(c, m, b, lfree, held)
    ensures Holds(c, m, b)
  {
  }

  /** mem_malloc() returns the block. */
  lemma HandOver(c: Conf, b: seq<Block>, owners: set<nat>, log: seq<Op>, mem: nat)
    requires Explained(c, b, owners, log, {mem})
    ensures Explained(c, b, owners + {mem}, log, {}) && mem !in owners
  {
    hide WellFormed, ApplyAll;
  }

  /** What a call of another context makes of the blocks and the owners, if the block is one of its own. */
  ghost function Other(c: Conf, b: seq<Block>, owners: set<nat>, op: Op): (seq<Block>, set<nat>) {
    if op.Malloc? || op.at !in owners || (op.Trim? && op.size >= MEM_SIZE_T) then (b, owners)
    else (Apply(c, b, op), if op.Free? then owners - {op.at} else owners)
  }

  ghost function Others(c: Conf, b: seq<Block>, owners: set<nat>, ops: seq<Op>): (seq<Block>, set<nat>) {
    if ops == [] then (b, owners)
    else
      var (d, o) := Others(c, b, owners, ops[..|ops| - 1]);
      Other(c, d, o, ops[|ops| - 1])
  }

  /** From one run of calls to a longer one, by frees and trims of other contexts that leave the
      block `held` alone. */
  ghost predicate Grew(was: seq<Op>, now: seq<Op>, held: set<nat>) {
    && |was| <= |now| && now[..|was|] == was
    && forall k :: |was| <= k < |now| ==> Foreign(now[k], held)
  }

  /** A mem_free() or mem_trim() of another context on a block of its own. */
  ghost predicate Foreign(op: Op, held: set<nat>) {
    !op.Malloc? && op.at !in held && (op.Trim? ==> op.size < MEM_SIZE_T)
  }

  lemma GrewSame(a: seq<Op>, held: set<nat>)
    ensures Grew(a, a, held)
  {
  }

  lemma GrewBy(a: seq<Op>, op: Op, held: set<nat>)
    requires Foreign(op, held)
    ensures Grew(a, a + [op], held)
  {
  }

  lemma GrewIf(a: seq<Op>, op: Op, owners: set<nat>, held: set<nat>)
    requires !op.Malloc? && owners !! held && (op.Trim? ==> op.size < MEM_SIZE_T)
    ensures op.at in owners ==> Grew(a, a + [op], held)
  {
    if op.at in owners { GrewBy(a, op, held); }
  }

  lemma GrewTwice(a: seq<Op>, b: seq<Op>, d: seq<Op>, held: set<nat>)
    requires Grew(a, b, held) && Grew(b, d, held)
    ensures Grew(a, d, held)
  {
    assert d[..|a|] == d[..|b|][..|a|];
    forall k | |a| <= k < |d| ensures Foreign(d[k], held) {
      if k < |b| { assert d[k] == d[..|b|][k]; }
    }
  }

  lemma OwnersApart(c: Conf, b: seq<Block>, owners: set<nat>, log: seq<Op>, held: set<nat>)
    requires Explained(c, b, owners, log, held)
    ensures owners !! held && b == ApplyAll(c, [Block(0, false)], log)
  {
  }

  /** From the run `was` to the run `log` a mem_malloc() with result r took effect at one point,
      number `turn` in the run: what it returns is what it returns undisturbed on the blocks at that
      point. All else that ran are frees and trims of other contexts, which after that point leave
      the returned block alone. */
  ghost predicate Linear(c: Conf, was: seq<Op>, log: seq<Op>, turn: nat, request: nat, r: Pointer) {
    && |was| <= turn < |log| && log[turn] == Malloc(request)
    && r == Answer(c, ApplyAll(c, [Block(0, false)], log[..turn]), request)
    && Grew(was, log[..turn], {})
    && match r
       case Null => turn + 1 == |log|
       case At(offset) => offset >= c.hdr && Grew(log[..turn + 1], log, {offset - c.hdr})
  }

  lemma LinearBy(c: Conf, was: seq<Op>, before: seq<Op>, log: seq<Op>, request: nat, r: Pointer)
    requires Grew(was, before, {}) && r == Answer(c, ApplyAll(c, [Block(0, false)], before), request)
    requires match r
             case Null => log == before + [Malloc(request)]
             case At(offset) => offset >= c.hdr && Grew(before + [Malloc(request)], log, {offset - c.hdr})
    ensures Linear(c, was, log, |before|, request, r)
  {
    hide Answer, ApplyAll;
    var after := before + [Malloc(request)];
    assert log[..|after|] == after;
    assert log[..|before|] == after[..|before|] == before;
    assert log[|before|] == after[|before|];
  }

  /** The run up to the point where the mem_malloc() took effect. */
  lemma BeforeTurn(c: Conf, was: seq<Op>, before: seq<Op>, log: seq<Op>, request: nat, r: Pointer)
    requires Linear(c, was, log, |before|, request, r) && r.At?
    requires r.offset >= c.hdr && Grew(before + [Malloc(request)], log, {r.offset - c.hdr})
    ensures log[..|before|] == before
  {
    hide Answer, ApplyAll;
    assert log[..|before|] == log[..|before| + 1][..|before|];
  }
}
