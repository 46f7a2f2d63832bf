/** The heap of lwip/core/mem.c as the list of its blocks: what freeing, trimming and allocating
    do to that list. */
module HeapBlocks {
  /** MEM_ALIGNMENT of the board's configuration. */
  const ALIGNMENT := 4

  /** The number of values of mem_size_t, which has 16 bits for heaps of up to 64000 bytes. */
  const MEM_SIZE_T := 0x1_0000

  /** SIZEOF_STRUCT_MEM, MIN_SIZE_ALIGNED and MEM_SIZE_ALIGNED. */
  datatype Conf = Conf(hdr: nat, min: nat, size: nat) {
    predicate Ok() {
      hdr > 0 && min > 0 && Aligned(hdr) && Aligned(min) && Aligned(size) && hdr + min <= size <= 64000
    }
  }

  predicate Aligned(x: nat) { x % ALIGNMENT == 0 }

  /** A block starts with its header at offset `at` and reaches to the next block. */
  datatype Block = Block(at: nat, used: bool)

  /** Offset of the block after block i; the end of the heap after the last one. */
  function Next(c: Conf, b: seq<Block>, i: nat): nat
    requires i < |b|
  {
    if i + 1 < |b| then b[i + 1].at else c.size
  }

  /** User bytes of block i. */
  function Room(c: Conf, b: seq<Block>, i: nat): int
    requires i < |b|
  {
    Next(c, b, i) - b[i].at - c.hdr
  }

  /** The headers tile the heap: aligned, in order, each with room for the minimum size. */
  ghost predicate Tiles(c: Conf, b: seq<Block>) {
    && b != [] && b[0].at == 0
    && (forall i :: 0 <= i < |b| ==> Aligned(b[i].at) && b[i].at + c.hdr + c.min <= c.size)
    && (forall i, j :: 0 <= i < j < |b| ==> b[i].at + c.hdr + c.min <= b[j].at)
  }

  /** No two adjacent blocks are free. */
  ghost predicate Plugged(b: seq<Block>) {
    forall i :: 0 <= i < |b| - 1 ==> b[i].used || b[i + 1].used
  }

  ghost predicate WellFormed(c: Conf, b: seq<Block>) {
    Tiles(c, b) && Plugged(b)
  }

  /** Offset of the lowest free block, or the end of the heap. */
  function LowestFree(c: Conf, b: seq<Block>): nat {
    if b == [] then c.size else if !b[0].used then b[0].at else LowestFree(c, b[1..])
  }

  // ---------------------------------------------------------------- the operations

  /** plug_holes(): join the free block i with a free block after it, then with one before it. */
  function PlugNext(b: seq<Block>, i: nat): seq<Block>
    requires i < |b|
  {
    if i + 1 < |b| && !b[i + 1].used then b[..i + 1] + b[i + 2..] else b
  }

  function PlugPrev(b: seq<Block>, i: nat): seq<Block>
    requires i < |b|
  {
    if i > 0 && !b[i - 1].used then b[..i] + b[i + 1..] else b
  }

  /** mem_free() of block i. */
  function Freed(b: seq<Block>, i: nat): seq<Block>
    requires i < |b|
  {
    PlugPrev(PlugNext(b[i := Block(b[i].at, false)], i), i)
  }

  /** LWIP_MEM_ALIGN_SIZE() assigned to a mem_size_t, and the minimum size. */
  function Round(c: Conf, size: nat): nat
  {
    var a := (size + ALIGNMENT - 1) / ALIGNMENT * ALIGNMENT % MEM_SIZE_T;
    if a < c.min then c.min else a
  }

  /** mem_trim() of block i to `size` user bytes, less than it has. */
  function Trimmed(c: Conf, b: seq<Block>, i: nat, size: nat): seq<Block>
    requires i < |b|
  {
    var rest := Block(b[i].at + c.hdr + size, false);
    if i + 1 < |b| && !b[i + 1].used then b[i + 1 := rest]
    else if size + c.hdr + c.min <= Room(c, b, i) then b[..i + 1] + [rest] + b[i + 1..]
    else b
  }

  /** mem_malloc() taking `size` bytes from the free block i. */
  function Taken(c: Conf, b: seq<Block>, i: nat, size: nat): seq<Block>
    requires i < |b|
  {
    var mine := Block(b[i].at, true);
    if Room(c, b, i) >= size + c.hdr + c.min then
      b[..i] + [mine, Block(b[i].at + c.hdr + size, false)] + b[i + 1..]
    else b[i := mine]
  }

  predicate Fits(c: Conf, b: seq<Block>, i: nat, size: nat)
    requires i < |b|
  {
    !b[i].used && Room(c, b, i) >= size
  }

  /** The lowest block that fits. */
  ghost predicate FirstFit(c: Conf, b: seq<Block>, i: nat, size: nat) {
    i < |b| && Fits(c, b, i, size) && forall j :: 0 <= j < i ==> !Fits(c, b, j, size)
  }

  // ---------------------------------------------------------------- what they keep

  lemma {:induction false} LowestFreeAt(c: Conf, b: seq<Block>, i: nat)
    requires i <= |b| && (forall j :: 0 <= j < i ==> b[j].used) && (i < |b| ==> !b[i].used)
    ensures LowestFree(c, b) == if i < |b| then b[i].at else c.size
    decreases i
  {
    if i > 0 {
      assert forall j :: 0 <= j < i - 1 ==> b[1..][j] == b[j + 1];
      LowestFreeAt(c, b[1..], i - 1);
    }
  }

  /** The index of the lowest free block. */
  lemma {:induction false} FindLowestFree(c: Conf, b: seq<Block>) returns (i: nat)
    ensures i <= |b| && (forall j :: 0 <= j < i ==> b[j].used) && (i < |b| ==> !b[i].used)
    ensures LowestFree(c, b) == if i < |b| then b[i].at else c.size
  {
    if b == [] || !b[0].used {
      i := 0;
    } else {
      var k := FindLowestFree(c, b[1..]);
      assert forall j :: 0 < j < k + 1 ==> b[j] == b[1..][j - 1];
      i := k + 1;
    }
  }

  function Without(b: seq<Block>, k: nat): seq<Block>
    requires k < |b|
  {
    b[..k] + b[k + 1..]
  }

  lemma TilesWithout(c: Conf, b: seq<Block>, k: nat)
    requires Tiles(c, b) && 0 < k < |b|
    ensures Tiles(c, Without(b, k))
  {
    hide Aligned;
    var r := Without(b, k);
    assert forall i :: 0 <= i < |r| ==> r[i] == b[if i < k then i else i + 1];
  }

  lemma TilesInsert(c: Conf, b: seq<Block>, k: nat, x: Block)
    requires Tiles(c, b) && k < |b| && Aligned(x.at)
    requires b[k].at + c.hdr + c.min <= x.at && x.at + c.hdr + c.min <= Next(c, b, k)
    ensures Tiles(c, b[..k + 1] + [x] + b[k + 1..])
  {
    hide Aligned;
    var r := b[..k + 1] + [x] + b[k + 1..];
    assert forall i :: 0 <= i < |r| ==> r[i] == if i <= k then b[i] else if i == k + 1 then x else b[i - 1];
  }

  lemma TilesMove(c: Conf, b: seq<Block>, k: nat, x: Block)
    requires Tiles(c, b) && 0 < k < |b| && Aligned(x.at)
    requires b[k - 1].at + c.hdr + c.min <= x.at <= b[k].at
    ensures Tiles(c, b[k := x])
  {
    hide Aligned;
    assert forall j :: k < j < |b| ==> b[k].at + c.hdr + c.min <= b[j].at;
    assert b[k].at + c.hdr + c.min <= c.size;
  }

  lemma TilesMark(c: Conf, b: seq<Block>, k: nat, used: bool)
    requires Tiles(c, b) && k < |b|
    ensures Tiles(c, b[k := Block(b[k].at, used)])
  {
  }

  /** mem_free() keeps the heap well formed. */
  lemma FreedWellFormed(c: Conf, b: seq<Block>, i: nat)
    requires WellFormed(c, b) && i < |b| && b[i].used
    ensures WellFormed(c, Freed(b, i))
  {
    hide Tiles;
    var b1 := b[i := Block(b[i].at, false)];
    TilesMark(c, b, i, false);
    var b2 := PlugNext(b1, i);
    if i + 1 < |b1| && !b1[i + 1].used {
      TilesWithout(c, b1, i + 1);
      assert b2 == Without(b1, i + 1);
    }
    if i > 0 && !b2[i - 1].used {
      TilesWithout(c, b2, i);
      assert Freed(b, i) == Without(b2, i);
    }
  }

  /** Put a free block behind block k, which is used, when no free block follows it. */
  lemma PluggedInsert(b: seq<Block>, k: nat, x: Block)
    requires Plugged(b) && k < |b| && b[k].used && (k + 1 < |b| ==> b[k + 1].used)
    ensures Plugged(b[..k + 1] + [x] + b[k + 1..])
  {
    var r := b[..k + 1] + [x] + b[k + 1..];
    assert forall i :: 0 <= i < |r| ==> r[i] == if i <= k then b[i] else if i == k + 1 then x else b[i - 1];
  }

  /** mem_trim() keeps the heap well formed. */
  lemma TrimmedWellFormed(c: Conf, b: seq<Block>, i: nat, size: nat)
    requires c.Ok() && WellFormed(c, b) && i < |b| && b[i].used
    requires c.min <= size < Room(c, b, i) && Aligned(size)
    ensures WellFormed(c, Trimmed(c, b, i, size))
  {
    assert Aligned(b[i].at) && Aligned(b[i].at + c.hdr + size);
    var rest := Block(b[i].at + c.hdr + size, false);
    if i + 1 < |b| && !b[i + 1].used {
      hide Tiles, Aligned;
      TilesMove(c, b, i + 1, rest);
    } else if size + c.hdr + c.min <= Room(c, b, i) {
      hide Tiles, Aligned, Plugged;
      PluggedInsert(b, i, rest);
      TilesInsert(c, b, i, rest);
    }
  }

  /** mem_malloc() keeps the heap well formed. */
  lemma TakenWellFormed(c: Conf, b: seq<Block>, i: nat, size: nat)
    requires c.Ok() && WellFormed(c, b) && i < |b| && Fits(c, b, i, size)
    requires c.min <= size && Aligned(size)
    ensures WellFormed(c, Taken(c, b, i, size))
  {
    assert Aligned(b[i].at) && Aligned(b[i].at + c.hdr + size);
    var b1 := b[i := Block(b[i].at, true)];
    assert Plugged(b1) && (i + 1 < |b1| ==> b1[i + 1].used);
    hide Tiles, Aligned, Plugged;
    TilesMark(c, b, i, true);
    var rest := Block(b[i].at + c.hdr + size, false);
    if Room(c, b, i) >= size + c.hdr + c.min {
      TilesInsert(c, b1, i, rest);
      PluggedInsert(b1, i, rest);
      assert b1[..i + 1] == b[..i] + [b1[i]] && b1[i + 1..] == b[i + 1..];
      assert Taken(c, b, i, size) == b1[..i + 1] + [rest] + b1[i + 1..];
    }
  }

  // ---------------------------------------------------------------- allocation

  /** The size mem_malloc() and mem_trim() work with is aligned and at least the minimum, and it is
      no less than the request unless rounding up wraps in a mem_size_t: then a request for almost
      64k is treated as one for nothing. */
  lemma RoundExact(c: Conf, size: nat)
    requires c.Ok() && size < MEM_SIZE_T
    ensures Aligned(Round(c, size)) && Round(c, size) >= c.min
    ensures Round(c, size) >= size <==> size <= MEM_SIZE_T - ALIGNMENT
    ensures size > MEM_SIZE_T - ALIGNMENT ==> Round(c, size) == c.min
    ensures c.min <= size <= MEM_SIZE_T - ALIGNMENT ==> size <= Round(c, size) < size + ALIGNMENT
  {
  }

  /** Freeing what was just allocated gives the block list back exactly. */
  lemma FreeUndoesMalloc(c: Conf, b: seq<Block>, i: nat, size: nat)
    requires WellFormed(c, b) && i < |b| && Fits(c, b, i, size)
    ensures i < |Taken(c, b, i, size)| && Freed(Taken(c, b, i, size), i) == b
  {
    var t := Taken(c, b, i, size);
    assert b[i] == Block(b[i].at, false);
    if Room(c, b, i) >= size + c.hdr + c.min {
      var t1 := t[i := Block(b[i].at, false)];
      assert t1[..i + 1] == b[..i + 1] && t1[i + 2..] == b[i + 1..];
      assert PlugNext(t1, i) == b;
    } else {
      assert t[i := Block(b[i].at, false)] == b;
    }
  }

  /** Index of the lowest block that fits, or |b|. */
  function FindFit(c: Conf, b: seq<Block>, size: nat, from: nat): (i: nat)
    requires from <= |b|
    ensures from <= i <= |b|
    ensures forall j :: from <= j < i ==> !Fits(c, b, j, size)
    ensures i < |b| ==> Fits(c, b, i, size)
    decreases |b| - from
  {
    if from == |b| || Fits(c, b, from, size) then from else FindFit(c, b, size, from + 1)
  }

  // ---------------------------------------------------------------- who owns what

  /** The allocations: start of the header, and end, of every used block. */
  ghost function Live(c: Conf, b: seq<Block>): set<(nat, nat)> {
    set i | 0 <= i < |b| && b[i].used :: (b[i].at, Next(c, b, i))
  }

  /** Two allocations never overlap. */
  lemma LiveDisjoint(c: Conf, b: seq<Block>, x: (nat, nat), y: (nat, nat))
    requires Tiles(c, b) && x in Live(c, b) && y in Live(c, b) && x != y
    ensures x.1 <= y.0 || y.1 <= x.0
  {
    var i :| 0 <= i < |b| && b[i].used && x == (b[i].at, Next(c, b, i));
    var j :| 0 <= j < |b| && b[j].used && y == (b[j].at, Next(c, b, j));
    if i < j {
      if i + 1 < j { assert b[i + 1].at + c.hdr + c.min <= b[j].at; }
    } else {
      if j + 1 < i { assert b[j + 1].at + c.hdr + c.min <= b[i].at; }
    }
  }

  lemma LiveIndex(c: Conf, b: seq<Block>, x: (nat, nat)) returns (i: nat)
    requires x in Live(c, b)
    ensures i < |b| && b[i].used && x == (b[i].at, Next(c, b, i))
  {
    i :| 0 <= i < |b| && b[i].used && x == (b[i].at, Next(c, b, i));
  }

  lemma LiveHas(c: Conf, b: seq<Block>, i: nat)
    requires i < |b| && b[i].used
    ensures (b[i].at, Next(c, b, i)) in Live(c, b)
  {
  }

  lemma Distinct(c: Conf, b: seq<Block>, i: nat, j: nat)
    requires c.Ok() && Tiles(c, b) && i < |b| && j < |b| && i != j
    ensures b[i].at != b[j].at
  {
  }

  lemma LiveWithout(c: Conf, b: seq<Block>, k: nat)
    requires 0 < k < |b| && !b[k].used && !b[k - 1].used
    ensures Live(c, Without(b, k)) == Live(c, b)
  {
    hide Live;
    var r := Without(b, k);
    forall x ensures x in Live(c, r) <==> x in Live(c, b) {
      if x in Live(c, r) {
        var i := LiveIndex(c, r, x);
        LiveHas(c, b, if i < k then i else i + 1);
      }
      if x in Live(c, b) {
        var j := LiveIndex(c, b, x);
        LiveHas(c, r, if j < k then j else j - 1);
      }
    }
  }

  /** Marking a block used or free adds or removes its allocation. */
  lemma LiveMark(c: Conf, b: seq<Block>, k: nat, used: bool)
    requires c.Ok() && Tiles(c, b) && k < |b|
    ensures var mine := (b[k].at, Next(c, b, k));
            Live(c, b[k := Block(b[k].at, used)]) == if used then Live(c, b) + {mine} else Live(c, b) - {mine}
  {
    hide Live, Tiles;
    var r := b[k := Block(b[k].at, used)];
    var mine := (b[k].at, Next(c, b, k));
    forall x ensures x in Live(c, r) <==> if used then x in Live(c, b) || x == mine else x in Live(c, b) && x != mine {
      if x in Live(c, r) {
        var i := LiveIndex(c, r, x);
        if i != k {
          LiveHas(c, b, i);
          Distinct(c, b, i, k);
        }
      }
      if x in Live(c, b) {
        var i := LiveIndex(c, b, x);
        if i != k { LiveHas(c, r, i); }
      }
      if used { LiveHas(c, r, k); }
    }
  }

  /** A free block put behind the used block k shortens its allocation. */
  lemma LiveInsert(c: Conf, b: seq<Block>, k: nat, x: Block)
    requires c.Ok() && Tiles(c, b) && k < |b| && b[k].used && !x.used
    ensures Live(c, b[..k + 1] + [x] + b[k + 1..]) == Live(c, b) - {(b[k].at, Next(c, b, k))} + {(b[k].at, x.at)}
  {
    hide Live, Tiles;
    var r := b[..k + 1] + [x] + b[k + 1..];
    var mine := (b[k].at, Next(c, b, k));
    forall y ensures y in Live(c, r) <==> (y in Live(c, b) && y != mine) || y == (b[k].at, x.at) {
      if y in Live(c, r) {
        var i := LiveIndex(c, r, y);
        if i != k {
          var j := if i < k then i else i - 1;
          LiveHas(c, b, j);
          Distinct(c, b, j, k);
        }
      }
      if y in Live(c, b) && y != mine {
        var j := LiveIndex(c, b, y);
        LiveHas(c, r, if j < k then j else j + 1);
      }
      LiveHas(c, r, k);
    }
  }

  /** A free block behind the used block k that moves down shortens its allocation. */
  lemma LiveMove(c: Conf, b: seq<Block>, k: nat, x: Block)
    requires c.Ok() && Tiles(c, b) && k + 1 < |b| && b[k].used && !b[k + 1].used && !x.used
    ensures Live(c, b[k + 1 := x]) == Live(c, b) - {(b[k].at, Next(c, b, k))} + {(b[k].at, x.at)}
  {
    hide Live, Tiles;
    var r := b[k + 1 := x];
    var mine := (b[k].at, Next(c, b, k));
    forall y ensures y in Live(c, r) <==> (y in Live(c, b) && y != mine) || y == (b[k].at, x.at) {
      if y in Live(c, r) {
        var i := LiveIndex(c, r, y);
        if i != k {
          LiveHas(c, b, i);
          Distinct(c, b, i, k);
        }
      }
      if y in Live(c, b) && y != mine {
        var j := LiveIndex(c, b, y);
        LiveHas(c, r, j);
      }
      LiveHas(c, r, k);
    }
  }

  /** mem_free() ends exactly one allocation and touches no other. */
  lemma FreedLive(c: Conf, b: seq<Block>, i: nat)
    requires c.Ok() && WellFormed(c, b) && i < |b| && b[i].used
    ensures Live(c, Freed(b, i)) == Live(c, b) - {(b[i].at, Next(c, b, i))}
  {
    hide Live;
    var b1 := b[i := Block(b[i].at, false)];
    LiveMark(c, b, i, false);
    var b2 := PlugNext(b1, i);
    if i + 1 < |b1| && !b1[i + 1].used {
      LiveWithout(c, b1, i + 1);
      assert b2 == Without(b1, i + 1);
    }
    if i > 0 && !b2[i - 1].used {
      LiveWithout(c, b2, i);
      assert Freed(b, i) == Without(b2, i);
    }
  }

  /** The free blocks: start of the header, and end. */
  ghost function Spare(c: Conf, b: seq<Block>): set<(nat, nat)> {
    set i | 0 <= i < |b| && !b[i].used :: (b[i].at, Next(c, b, i))
  }

  lemma SpareHas(c: Conf, b: seq<Block>, i: nat)
    requires i < |b| && !b[i].used
    ensures (b[i].at, Next(c, b, i)) in Spare(c, b)
  {
  }

  /** mem_malloc() starts exactly one allocation, of at least the size asked for and less than a header
      and the minimum more, inside what was a free block. It touches no other, and leaves the rest of
      the free block free. */
  lemma TakenLive(c: Conf, b: seq<Block>, i: nat, size: nat)
    requires c.Ok() && WellFormed(c, b) && i < |b| && Fits(c, b, i, size) && c.min <= size && Aligned(size)
    ensures var t := Taken(c, b, i, size);
            && i < |t| && t[i] == Block(b[i].at, true)
            && b[i].at + c.hdr + size <= Next(c, t, i) <= Next(c, b, i)
            && Next(c, t, i) - b[i].at - c.hdr < size + c.hdr + c.min
            && (Next(c, t, i) < Next(c, b, i) ==> (Next(c, t, i), Next(c, b, i)) in Spare(c, t))
            && Live(c, t) == Live(c, b) + {(b[i].at, Next(c, t, i))}
            && (forall e :: (b[i].at, e) !in Live(c, b))
  {
    hide Live, Spare;
    var t := Taken(c, b, i, size);
    var b1 := b[i := Block(b[i].at, true)];
    forall e ensures (b[i].at, e) !in Live(c, b) {
      if (b[i].at, e) in Live(c, b) {
        var j := LiveIndex(c, b, (b[i].at, e));
        Distinct(c, b, i, j);
      }
    }
    LiveMark(c, b, i, true);
    TilesMark(c, b, i, true);
    hide Tiles;
    if Room(c, b, i) >= size + c.hdr + c.min {
      var rest := Block(b[i].at + c.hdr + size, false);
      LiveInsert(c, b1, i, rest);
      assert b1[..i + 1] == b[..i] + [b1[i]] && b1[i + 1..] == b[i + 1..];
      assert t == b1[..i + 1] + [rest] + b1[i + 1..];
      SpareHas(c, t, i + 1);
    }
  }

  /** mem_trim() keeps every other allocation and the start of this one, and leaves it at least the
      new size, and less than a header and the minimum more. What is cut off is free, together with a
      free block behind it. */
  lemma TrimmedLive(c: Conf, b: seq<Block>, i: nat, size: nat)
    requires c.Ok() && WellFormed(c, b) && i < |b| && b[i].used && c.min <= size < Room(c, b, i) && Aligned(size)
    ensures var t := Trimmed(c, b, i, size);
            && t[i] == b[i] && b[i].at + c.hdr + size <= Next(c, t, i) <= Next(c, b, i)
            && Live(c, t) == Live(c, b) - {(b[i].at, Next(c, b, i))} + {(b[i].at, Next(c, t, i))}
            && Next(c, t, i) - b[i].at - c.hdr < size + c.hdr + c.min
            && (i + 1 < |b| && !b[i + 1].used ==> Next(c, t, i) == b[i].at + c.hdr + size && (Next(c, t, i), Next(c, b, i + 1)) in Spare(c, t))
            && (!(i + 1 < |b| && !b[i + 1].used) && Next(c, t, i) < Next(c, b, i) ==> (Next(c, t, i), Next(c, b, i)) in Spare(c, t))
  {
    hide Live, Tiles, Plugged, Spare;
    var t := Trimmed(c, b, i, size);
    var rest := Block(b[i].at + c.hdr + size, false);
    LiveHas(c, b, i);
    if i + 1 < |b| && !b[i + 1].used {
      LiveMove(c, b, i, rest);
      SpareHas(c, t, i + 1);
    } else if size + c.hdr + c.min <= Room(c, b, i) {
      LiveInsert(c, b, i, rest);
      SpareHas(c, t, i + 1);
    }
  }

  // ---------------------------------------------------------------- runs

  /** One call: mem_malloc(), mem_free() and mem_trim() of the block whose header is at `at`. */
  datatype Op = Malloc(size: nat) | Free(at: nat) | Trim(at: nat, size: nat)

  /** Index of the used block at offset `at`, or |b|. */
  function IndexOf(b: seq<Block>, at: nat): (i: nat)
    ensures i <= |b| && (i < |b| ==> b[i] == Block(at, true))
    ensures forall j :: 0 <= j < i ==> b[j] != Block(at, true)
  {
    if b == [] then 0 else if b[0] == Block(at, true) then 0 else 1 + IndexOf(b[1..], at)
  }

  /** mem_malloc(): no block for size 0, for a size that does not fit the heap, or when nothing
      fits; otherwise the lowest block that fits. */
  function Malloced(c: Conf, b: seq<Block>, size: nat): seq<Block> {
    var n := Round(c, size);
    if size == 0 || n > c.size || FindFit(c, b, n, 0) == |b| then b else Taken(c, b, FindFit(c, b, n, 0), n)
  }

  /** mem_trim() of block i. */
  function TrimCall(c: Conf, b: seq<Block>, i: nat, size: nat): seq<Block>
    requires i < |b|
  {
    var n := Round(c, size);
    if n > c.size || n >= Room(c, b, i) then b else Trimmed(c, b, i, n)
  }

  /** One call on the block list; freeing and trimming are only called on allocations. */
  function Apply(c: Conf, b: seq<Block>, op: Op): seq<Block> {
    match op
    case Malloc(size) => Malloced(c, b, size)
    case Free(at) => var i := IndexOf(b, at); if i < |b| then Freed(b, i) else b
    case Trim(at, size) => var i := IndexOf(b, at); if i < |b| then TrimCall(c, b, i, size) else b
  }

  function ApplyAll(c: Conf, b: seq<Block>, ops: seq<Op>): seq<Block> {
    if ops == [] then b else Apply(c, ApplyAll(c, b, ops[..|ops| - 1]), ops[|ops| - 1])
  }

  /** Over every run of calls the headers tile the heap, no two adjacent blocks are free, and the
      allocations are pairwise disjoint. */
  lemma {:induction false} HeapStaysWellFormed(c: Conf, ops: seq<Op>)
    requires c.Ok() && forall i :: 0 <= i < |ops| && !ops[i].Free? ==> ops[i].size < MEM_SIZE_T
    ensures WellFormed(c, ApplyAll(c, [Block(0, false)], ops))
    decreases |ops|
  {
    if ops != [] {
      var before := ops[..|ops| - 1];
      var op := ops[|ops| - 1];
      HeapStaysWellFormed(c, before);
      ApplyWellFormed(c, ApplyAll(c, [Block(0, false)], before), op);
    }
  }

  lemma ApplyWellFormed(c: Conf, b: seq<Block>, op: Op)
    requires c.Ok() && WellFormed(c, b) && (!op.Free? ==> op.size < MEM_SIZE_T)
    ensures WellFormed(c, Apply(c, b, op))
  {
    hide WellFormed, Taken, Trimmed, Freed, Aligned, Round;
    match op
    case Malloc(size) =>
      RoundExact(c, size);
      var i := FindFit(c, b, Round(c, size), 0);
      if i < |b| { TakenWellFormed(c, b, i, Round(c, size)); }
    case Free(at) =>
      if IndexOf(b, at) < |b| { FreedWellFormed(c, b, IndexOf(b, at)); }
    case Trim(at, size) =>
      RoundExact(c, size);
      var i := IndexOf(b, at);
      if i < |b| && Round(c, size) < Room(c, b, i) { TrimmedWellFormed(c, b, i, Round(c, size)); }
  }
}
