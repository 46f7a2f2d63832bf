/** lwip/core/mem.c in place: the heap memory, the lfree pointer, and the calls that change them,
    with the calls of other contexts that may come in between. */
module MemHeap {
  import opened HeapBlocks
  import opened Heap
  import opened HeapSpace

  class HeapMem {
    const c: Conf
    /** Headers by offset; ram[size] is the struct mem ram_end points to. */
    const ram: array<Mem>
    var lfree: nat
    var memFreeCount: nat
    /** Headers whose user pointers are in the hands of callers. */
    var owners: set<nat>
    /** The blocks, and the calls that took effect since mem_init(), in order. */
    ghost var blocks: seq<Block>
    ghost var log: seq<Op>

    /** The heap invariant. `held` is the block a running mem_malloc() has taken and not returned. */
    ghost predicate Valid(held: set<nat>)
      reads this, ram
    {
      && ram.Length == c.size + 1
      && Sound(c, ram[..], blocks, lfree, held)
      && Explained(c, blocks, owners, log, held)
    }

    /** mem_init() */
    constructor (conf: Conf)
      requires conf.Ok()
      ensures Valid({}) && c == conf && fresh(ram)
      ensures blocks == [Block(0, false)] && lfree == 0 && owners == {} && log == []
    {
      c := conf;
      var m := new Mem[conf.size + 1];
      m[0] := Mem(conf.size, 0, false);
      m[conf.size] := Mem(conf.size, conf.size, true);
      ram := m;
      lfree := 0;
      memFreeCount := 0;
      owners := {};
      blocks := [Block(0, false)];
      log := [];
      assert Owned(conf, [Block(0, false)]) == {};
    }

    /** Combine the free block `mem` with the free block `nmem` behind it. */
    method Join(mem: nat, nmem: nat, ghost k: nat)
      requires c.Ok() && ram.Length == c.size + 1 && Tiles(c, blocks) && Holds(c, ram[..], blocks)
      requires 0 < k < |blocks| && blocks[k - 1].at == mem && blocks[k].at == nmem
      modifies ram, `lfree, `blocks
      ensures Tiles(c, blocks) && Holds(c, ram[..], blocks)
      ensures blocks == Without(old(blocks), k) && lfree == if old(lfree) == nmem then mem else old(lfree)
    {
      hide Tiles, Holds, Conf.Ok, Next, Without;
      Read(c, ram[..], blocks, k - 1);
      Read(c, ram[..], blocks, k);
      HoldsWithout(c, ram[..], blocks, k);
      TilesWithout(c, blocks, k);
      if lfree == nmem {
        lfree := mem;
      }
      var n := ram[nmem].next;
      ram[mem] := ram[mem].(next := n);
      ram[n] := ram[n].(prev := mem);
      blocks := Without(blocks, k);
    }

    /** plug_holes() */
    method PlugHoles(mem: nat, ghost i: nat, ghost held: set<nat>)
      requires ram.Length == c.size + 1 && Sound(c, ram[..], blocks, lfree, held)
      requires i < |blocks| && blocks[i] == Block(mem, false)
      modifies ram, `lfree, `blocks
      ensures Sound(c, ram[..], blocks, lfree, held)
      ensures blocks == PlugPrev(PlugNext(old(blocks), i), i)
    {
      hide Tiles, Marks, Holds, Conf.Ok;
      Read(c, ram[..], blocks, i);
      var nmem := ram[mem].next;
      if mem != nmem && !ram[nmem].used && nmem != c.size {
        MarksWithout(c, blocks, i + 1, lfree, held);
        Join(mem, nmem, i + 1);
      }
      Read(c, ram[..], blocks, i);
      var pmem := ram[mem].prev;
      if pmem != mem && !ram[pmem].used {
        MarksWithout(c, blocks, i, lfree, held);
        Join(pmem, mem, i);
      }
    }

    /** The writes of mem_free(). */
    method Release(mem: nat, ghost i: nat, ghost held: set<nat>)
      requires ram.Length == c.size + 1 && Sound(c, ram[..], blocks, lfree, held)
      requires i < |blocks| && blocks[i] == Block(mem, true)
      modifies ram, `lfree, `blocks
      ensures Sound(c, ram[..], blocks, lfree, held)
      ensures blocks == Freed(old(blocks), i)
    {
      hide Tiles, Marks, Holds, Conf.Ok, PlugNext, PlugPrev;
      Read(c, ram[..], blocks, i);
      HoldsMark(c, ram[..], blocks, i, false);
      TilesMark(c, blocks, i, false);
      MarksFree(c, blocks, i, lfree, held);
      ram[mem] := ram[mem].(used := false);
      blocks := blocks[i := Block(mem, false)];
      if mem < lfree {
        lfree := mem;
      }
      PlugHoles(mem, i, held);
    }

    /** mem_free() from the test on. */
    method FreeBlock(mem: nat, ghost held: set<nat>)
      requires Valid(held) && mem in owners
      modifies this, ram
      ensures Valid(held)
      ensures memFreeCount == 1 && owners == old(owners) - {mem} && log == old(log) + [Free(mem)]
      ensures blocks == Apply(c, old(blocks), Free(mem))
    {
      hide Sound, Explained, Freed, ApplyAll, Owned, Apply;
      ghost var i := FreeExplained(c, blocks, owners, log, held, mem);
      Release(mem, i, held);
      memFreeCount := 1;
      var mine: set<nat> := {mem};
      owners := owners - mine;
      log := log + [Free(mem)];
    }

    /** mem_free(): out of range pointers are ignored; otherwise it ends the allocation, whoever
        else is in the middle of a mem_malloc(). */
    method MemFree(rmem: Pointer, ghost held: set<nat>)
      requires Valid(held)
      requires rmem.At? && 0 <= rmem.offset < c.size ==> rmem.offset - c.hdr in owners
      modifies this, ram
      ensures Valid(held)
      ensures !(rmem.At? && 0 <= rmem.offset < c.size) ==> Untouched()
      ensures rmem.At? && 0 <= rmem.offset < c.size ==>
                var at: nat := rmem.offset - c.hdr;
                memFreeCount == 1 && owners == old(owners) - {at} && log == old(log) + [Free(at)]
    {
      if rmem.Null? || rmem.offset < 0 || rmem.offset >= c.size {
        return;
      }
      var mem: nat := rmem.offset - c.hdr;
      FreeBlock(mem, held);
    }

    /** mem_trim() moves the free block behind `mem` down to where the shrunk block ends. */
    method MoveDown(mem: nat, newsize: nat, ghost i: nat, ghost held: set<nat>)
      requires ram.Length == c.size + 1 && Sound(c, ram[..], blocks, lfree, held)
      requires i + 1 < |blocks| && blocks[i].at == mem && !blocks[i + 1].used
      requires c.min <= newsize < Room(c, blocks, i) && Aligned(newsize)
      modifies ram, `lfree, `blocks
      ensures Sound(c, ram[..], blocks, lfree, held)
      ensures blocks == Trimmed(c, old(blocks), i, newsize)
    {
      hide Sound, Aligned;
      SoundMove(c, ram[..], blocks, lfree, held, i, newsize);
      var mem2 := ram[mem].next;
      var next := ram[mem2].next;
      var ptr2 := mem + c.hdr + newsize;
      if lfree == mem2 {
        lfree := ptr2;
      }
      ram[ptr2] := Mem(next, mem, false);
      ram[mem] := ram[mem].(next := ptr2);
      if next != c.size {
        ram[next] := ram[next].(prev := ptr2);
      }
      blocks := blocks[i + 1 := Block(ptr2, false)];
    }

    /** Put a free block behind the first `size` bytes of block `mem`. */
    method Split(mem: nat, size: nat, ghost i: nat, ghost was: nat, ghost held: set<nat>)
      requires ram.Length == c.size + 1 && Sound(c, ram[..], blocks, was, held)
      requires lfree == if mem + c.hdr + size < was then mem + c.hdr + size else was
      requires i < |blocks| && blocks[i].at == mem
      requires c.min <= size && size + c.hdr + c.min <= Room(c, blocks, i) && Aligned(size)
      modifies ram, `blocks
      ensures Sound(c, ram[..], blocks, lfree, held)
      ensures blocks == old(blocks)[..i + 1] + [Block(mem + c.hdr + size, false)] + old(blocks)[i + 1..]
    {
      hide Sound, Aligned;
      SoundInsert(c, ram[..], blocks, was, held, i, size);
      var ptr2 := mem + c.hdr + size;
      var next := ram[mem].next;
      ram[ptr2] := Mem(next, mem, false);
      ram[mem] := ram[mem].(next := ptr2);
      if next != c.size {
        ram[next] := ram[next].(prev := ptr2);
      }
      blocks := blocks[..i + 1] + [Block(ptr2, false)] + blocks[i + 1..];
    }

    /** LWIP_MEM_ALIGN_SIZE() and the minimum size. */
    method AlignSize(request: nat) returns (size: nat)
      ensures size == Round(c, request)
    {
      size := (request + ALIGNMENT - 1) / ALIGNMENT * ALIGNMENT % MEM_SIZE_T;
      if size < c.min {
        size := c.min;
      }
    }

    /** mem_trim(): shrinks the allocation in place, or refuses. */
    method MemTrim(rmem: Pointer, request: nat, ghost held: set<nat>) returns (r: Pointer)
      requires Valid(held) && request < MEM_SIZE_T
      requires rmem.At? && 0 <= rmem.offset < c.size ==> rmem.offset - c.hdr in owners
      modifies this, ram
      ensures Valid(held) && owners == old(owners)
      ensures var b, n := old(blocks), Round(c, request);
              if n > c.size then r == Null && Untouched()
              else if !(rmem.At? && 0 <= rmem.offset < c.size) then r == rmem && Untouched()
              else
                var at: nat := rmem.offset - c.hdr;
                var i := IndexOf(b, at);
                && i < |b|
                && (r == if n > Room(c, b, i) then Null else rmem)
                && (if n >= Room(c, b, i) then Untouched()
                    else memFreeCount == 1 && log == old(log) + [Trim(at, request)] && blocks == Trimmed(c, b, i, n))
    {
      hide Sound, Explained, Round, Aligned, Trimmed, IndexOf, ApplyAll;
      ConfOk(c, ram[..], blocks, lfree, held);
      RoundExact(c, request);
      var newsize := AlignSize(request);
      if newsize > c.size {
        return Null;
      }
      if rmem.Null? || rmem.offset < 0 || rmem.offset >= c.size {
        return rmem;
      }
      var mem: nat := rmem.offset - c.hdr;
      ghost var i := TrimExplained(c, blocks, owners, log, held, mem, request);
      ReadSound(c, ram[..], blocks, lfree, held, i);
      var size := ram[mem].next - mem - c.hdr;
      if newsize > size {
        return Null;
      }
      if newsize == size {
        return rmem;
      }
      Shrink(mem, newsize, i, held);
      memFreeCount := 1;
      log := log + [Trim(mem, request)];
      return rmem;
    }

    /** The writes of mem_trim(). */
    method Shrink(mem: nat, newsize: nat, ghost i: nat, ghost held: set<nat>)
      requires ram.Length == c.size + 1 && Sound(c, ram[..], blocks, lfree, held)
      requires i < |blocks| && blocks[i].at == mem
      requires c.min <= newsize < Room(c, blocks, i) && Aligned(newsize)
      modifies ram, `lfree, `blocks
      ensures Sound(c, ram[..], blocks, lfree, held)
      ensures blocks == Trimmed(c, old(blocks), i, newsize)
    {
      hide Sound, Aligned;
      ReadSound(c, ram[..], blocks, lfree, held, i);
      var size := ram[mem].next - mem - c.hdr;
      var mem2 := ram[mem].next;
      if !ram[mem2].used {
        MoveDown(mem, newsize, i, held);
      } else if newsize + c.hdr + c.min <= size {
        ghost var was := lfree;
        if mem + c.hdr + newsize < lfree {
          lfree := mem + c.hdr + newsize;
        }
        Split(mem, newsize, i, was, held);
      }
    }

    /** A call that had no effect. */
    twostate predicate Untouched()
      reads this
    {
      && blocks == old(blocks) && memFreeCount == old(memFreeCount) && lfree == old(lfree)
      && owners == old(owners) && log == old(log)
    }

    /** A mem_free() or mem_trim() of another context, on an allocation of its own. */
    method Perform(op: Op, ghost held: set<nat>)
      requires Valid(held)
      modifies this, ram
      ensures Valid(held) && owners <= old(owners) && Grew(old(log), log, held)
      ensures memFreeCount == 1 || Untouched()
      ensures (blocks, owners) == Other(c, old(blocks), old(owners), op)
    {
      OwnersApart(c, blocks, owners, log, held);
      hide Sound, Explained, Round, Trimmed, Freed, IndexOf, FindFit, ApplyAll;
      GrewSame(log, held);
      if op.Malloc? || (op.Trim? && op.size >= MEM_SIZE_T) { return; }
      GrewIf(log, op, owners, held);
      match op {
        case Malloc(_) =>
        case Free(at) =>
          if at in owners { FreeBlock(at, held); }
        case Trim(at, size) =>
          if at in owners {
            var _ := MemTrim(At(at + c.hdr), size, held);
          }
      }
    }

    /** The heap is unprotected for a moment: other contexts run complete mem_free() and mem_trim()
        calls. */
    method Interfere(ops: seq<Op>, ghost held: set<nat>)
      requires Valid(held)
      modifies this, ram
      ensures Valid(held) && owners <= old(owners) && Grew(old(log), log, held)
      ensures memFreeCount == 1 || Untouched()
      ensures ops == [] ==> Untouched()
      ensures (blocks, owners) == Others(c, old(blocks), old(owners), ops)
    {
      hide Valid, Grew, Other;
      assert Grew(log, log, held) by { GrewSame(log, held); }
      for k := 0 to |ops|
        invariant Valid(held) && owners <= old(owners) && Grew(old(log), log, held)
        invariant memFreeCount == 1 || Untouched()
        invariant k == 0 ==> Untouched()
        invariant (blocks, owners) == Others(c, old(blocks), old(owners), ops[..k])
      {
        ghost var was := log;
        assert ops[..k + 1][..k] == ops[..k];
        Perform(ops[k], held);
        GrewTwice(old(log), was, log, held);
      }
      assert ops[..|ops|] == ops;
    }

    /** The search of mem_malloc() from lfree on. At each block the heap is unprotected for a moment,
        and the search gives up when a call of another context ran then. */
    method Scan(n: nat, others: seq<seq<Op>>, from: nat) returns (mem: Pointer, again: bool, next: nat)
      requires Valid({}) && n <= c.size && from <= |others|
      modifies this, ram
      ensures Valid({}) && owners <= old(owners) && Grew(old(log), log, {})
      ensures from <= next <= |others| && (again ==> from < next)
      ensures others[from..] == [] ==> !again && log == old(log)
      ensures again ==> mem == Null
      ensures !again ==>
                var i := FindFit(c, blocks, n, 0);
                mem == if i < |blocks| then At(blocks[i].at) else Null
      decreases |others| - from
    {
      hide Sound, Explained, FindFit;
      next := from;
      GrewSame(log, {});
      ghost var j := MarkIndex(c, ram[..], blocks, lfree, {});
      ghost var b, o, l := blocks, owners, log;
      var ptr := lfree;
      while ptr < c.size - n
        invariant Valid({}) && blocks == b && owners == o && log == l
        invariant j <= |b| && ptr == Place(c, b, j) && from <= next <= |others|
        invariant forall q :: 0 <= q < j ==> !Fits(c, b, q, n)
        decreases |b| - j
      {
        memFreeCount := 0;
        if next < |others| {
          Interfere(others[next], {});
          next := next + 1;
        }
        if memFreeCount != 0 {
          return Null, true, next;
        }
        ReadSound(c, ram[..], b, lfree, {}, j);
        if !ram[ptr].used && ram[ptr].next - (ptr + c.hdr) >= n {
          assert Fits(c, b, j, n);
          return At(ptr), false, next;
        }
        ptr := ram[ptr].next;
        j := j + 1;
      }
      NothingFits(c, ram[..], b, lfree, n, j);
      return Null, false, next;
    }

    /** The writes of mem_malloc() when it takes the block at `mem`. */
    method Take(mem: nat, size: nat, ghost i: nat)
      requires ram.Length == c.size + 1 && Sound(c, ram[..], blocks, lfree, {})
      requires i < |blocks| && blocks[i].at == mem && Fits(c, blocks, i, size)
      requires c.min <= size && Aligned(size)
      modifies ram, `blocks
      ensures Sound(c, ram[..], blocks, lfree, {mem})
      ensures blocks == Taken(c, old(blocks), i, size)
    {
      hide Sound, Aligned;
      ghost var b := blocks;
      ReadSound(c, ram[..], b, lfree, {}, i);
      SoundTake(c, ram[..], b, lfree, i);
      if ram[mem].next - (mem + c.hdr) >= size + c.hdr + c.min {
        Split(mem, size, i, lfree, {});
        SoundTake(c, ram[..], blocks, lfree, i);
      }
      ram[mem] := ram[mem].(used := true);
      blocks := blocks[i := Block(mem, true)];
    }

    /** mem_malloc_adjust_lfree: lfree moves on from the block just taken, unless a call of another
        context has moved it already. The block goes to the caller. */
    method Adjust(mem: nat, others: seq<seq<Op>>, from: nat)
      requires Valid({mem}) && from <= |others|
      modifies this, ram
      ensures Valid({}) && owners <= old(owners) + {mem} && mem in owners && Grew(old(log), log, {mem})
      ensures others[from..] == [] ==> log == old(log)
    {
      hide Sound, Explained, Grew;
      GrewSame(log, {mem});
      var next, restart := from, true;
      while restart
        invariant Valid({mem}) && owners <= old(owners) && Grew(old(log), log, {mem}) && from <= next <= |others|
        invariant others[from..] == [] ==> log == old(log)
        invariant !restart ==> Sound(c, ram[..], blocks, lfree, {})
        decreases |others| - next, restart
      {
        restart := false;
        if mem == lfree {
          ghost var was := log;
          restart, next := Advance(mem, others, next);
          GrewTwice(old(log), was, log, {mem});
        } else {
          SoundElsewhere(c, ram[..], blocks, lfree, mem);
        }
      }
      HandOver(c, blocks, owners, log, mem);
      owners := owners + {mem};
    }

    /** Find the next free block after the one just taken. */
    method Advance(mem: nat, others: seq<seq<Op>>, from: nat) returns (restart: bool, next: nat)
      requires Valid({mem}) && from <= |others|
      modifies this, ram
      ensures Valid({mem}) && owners <= old(owners) && Grew(old(log), log, {mem})
      ensures from <= next <= |others| && (restart ==> from < next)
      ensures others[from..] == [] ==> log == old(log)
      ensures !restart ==> Sound(c, ram[..], blocks, lfree, {})
    {
      hide Sound, Explained;
      GrewSame(log, {mem});
      next := from;
      ghost var j := MarkIndex(c, ram[..], blocks, lfree, {mem});
      ghost var b, o, l := blocks, owners, log;
      var cur := lfree;
      ReadPlace(c, ram[..], b, lfree, {mem}, j);
      while cur != c.size && ram[cur].used
        invariant Valid({mem}) && blocks == b && owners == o && log == l
        invariant j <= |b| && cur == Place(c, b, j) && from <= next <= |others|
        invariant forall q :: 0 <= q < j ==> b[q].used
        invariant cur < ram.Length && if j < |b| then cur != c.size && ram[cur].used == b[j].used else cur == c.size
        decreases |b| - j
      {
        memFreeCount := 0;
        if next < |others| {
          Interfere(others[next], {mem});
          next := next + 1;
        }
        if memFreeCount != 0 {
          return true, next;
        }
        ReadSound(c, ram[..], b, lfree, {mem}, j);
        cur := ram[cur].next;
        j := j + 1;
        ReadPlace(c, ram[..], b, lfree, {mem}, j);
      }
      SoundEnd(c, ram[..], b, lfree, {mem}, j);
      lfree := cur;
      return false, next;
    }

    /** mem_malloc() returns NULL. */
    method Refuse(request: nat) returns (r: Pointer)
      requires Valid({}) && Answer(c, blocks, request) == Null
      modifies `log
      ensures Valid({}) && r == Null && log == old(log) + [Malloc(request)]
    {
      hide Sound, Explained, Answer;
      FailExplained(c, blocks, owners, log, request);
      log := log + [Malloc(request)];
      return Null;
    }

    /** mem_malloc() from the block it found on. */
    method Grant(mem: nat, request: nat, size: nat, others: seq<seq<Op>>, from: nat) returns (r: Pointer)
      requires Valid({}) && 0 < request < MEM_SIZE_T && size == Round(c, request) <= c.size && from <= |others|
      requires var i := FindFit(c, blocks, size, 0); i < |blocks| && blocks[i].at == mem
      modifies this, ram
      ensures Valid({}) && r == At(mem + c.hdr) == Answer(c, old(blocks), request)
      ensures owners <= old(owners) + {mem} && mem in owners && mem !in old(owners)
      ensures Grew(old(log) + [Malloc(request)], log, {mem})
      ensures others[from..] == [] ==> log == old(log) + [Malloc(request)]
    {
      ConfOk(c, ram[..], blocks, lfree, {});
      RoundExact(c, request);
      hide Sound, Explained, Round, FindFit, Answer, Taken, Grew, Aligned;
      ghost var i := FindFit(c, blocks, size, 0);
      TakeExplained(c, blocks, owners, log, request, i);
      Take(mem, size, i);
      log := log + [Malloc(request)];
      Adjust(mem, others, from);
      return At(mem + c.hdr);
    }

    /** The search of mem_malloc(), repeated as long as calls of other contexts disturb it. */
    method Search(n: nat, others: seq<seq<Op>>) returns (mem: Pointer, next: nat)
      requires Valid({}) && n <= c.size
      modifies this, ram
      ensures Valid({}) && owners <= old(owners) && Grew(old(log), log, {}) && next <= |others|
      ensures others == [] ==> log == old(log)
      ensures var i := FindFit(c, blocks, n, 0);
              mem == if i < |blocks| then At(blocks[i].at) else Null
    {
      hide Sound, Explained, FindFit, Grew;
      GrewSame(log, {});
      var again := true;
      mem, next := Null, 0;
      while again
        invariant Valid({}) && owners <= old(owners) && Grew(old(log), log, {}) && next <= |others|
        invariant others == [] ==> log == old(log)
        invariant !again ==> var i := FindFit(c, blocks, n, 0);
                    mem == if i < |blocks| then At(blocks[i].at) else Null
        decreases |others| - next, again
      {
        ghost var was := log;
        mem, again, next := Scan(n, others, next);
        GrewTwice(old(log), was, log, {});
      }
    }

    /** The blocks are what the run made of them. */
    lemma Replay()
      requires Valid({})
      ensures blocks == ApplyAll(c, [Block(0, false)], log) && c.Ok() && WellFormed(c, blocks)
    {
      hide Sound, ApplyAll;
    }

    /** mem_malloc(), with the calls of other contexts that run each time the heap is unprotected:
        it ends as if those calls and one undisturbed mem_malloc() had run one after another. The block
        it returns holds what was asked for and less than a header and the minimum more, up to `end`;
        what is left of the free block it was taken from, which ended at `all`, is free; and it is left
        alone from then on. */
    method MemMalloc(request: nat, others: seq<seq<Op>>) returns (r: Pointer, ghost turn: nat, ghost end: nat, ghost all: nat)
      requires Valid({}) && request < MEM_SIZE_T
      modifies this, ram
      ensures Valid({})
      ensures Linear(c, old(log), log, turn, request, r)
      ensures r.At? ==>
                var start := [Block(0, false)];
                && Granted(c, ApplyAll(c, start, log[..turn]), ApplyAll(c, start, log[..turn + 1]), request, r.offset, end, all)
                && ((r.offset - c.hdr) as nat, end) in Live(c, blocks)
      ensures r.Null? ==> owners <= old(owners)
      ensures r.At? ==> var mem: nat := r.offset - c.hdr; mem in owners && owners <= old(owners) + {mem}
      ensures others == [] ==> log == old(log) + [Malloc(request)]
    {
      GrewSame(log, {});
      hide Valid, Round, FindFit, Grew, ApplyAll, Linear, Granted, Live, WellFormed;
      end, all := 0, 0;
      var size := AlignSize(request);
      var mem, next := Null, 0;
      if request != 0 && size <= c.size {
        mem, next := Search(size, others);
      }
      turn := |log|;
      ghost var before := log;
      Replay();
      if mem.Null? {
        r := Refuse(request);
      } else {
        r := Grant(mem.offset, request, size, others, next);
      }
      LinearBy(c, old(log), before, log, request, r);
      if r.At? {
        BeforeTurn(c, old(log), before, log, request, r);
        Replay();
        end, all := LinearGrants(c, old(log), log, turn, request, r);
      }
    }
  }
}
