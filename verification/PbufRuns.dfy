/** Runs of calls into lwip/core/pbuf.c: reference counts over all of them. */
module PbufRuns {
  import opened SeqNum
  import opened PbufGraph
  import opened PbufData

  /** The live pbufs, and the handles callers have on them. */
  datatype State = State(m: Mem, handles: multiset<nat>)

  /** A call; l and k are the chains at its pbufs at that time. */
  datatype Call =
    | Alloc(x: nat, b: Pbuf)
    | Take(p: nat)
    | Free(p: nat, l: seq<nat>)
    | Concat(h: nat, t: nat, l: seq<nat>, k: seq<nat>)
    | Attach(h: nat, t: nat, l: seq<nat>, k: seq<nat>)
    | Dechain(p: nat, l: seq<nat>)
    | Shrink(p: nat, newLen: u16, l: seq<nat>)

  /** What callers owe: pbuf_free(), pbuf_cat() and pbuf_chain() get a handle the caller has, two
      different chains are joined, and no count reaches 2^16. */
  ghost predicate Allowed(s: State, c: Call) {
    match c
    case Alloc(x, b) => x !in s.m && b.next == Null && b.ref == 1
    case Take(p) => p in s.m && s.m[p].ref < 0xFFFF
    case Free(p, l) => p in s.handles && Chain(s.m, Pb(p), l)
    case Concat(h, t, l, k) => t in s.handles && Joins(s.m, h, t, l, k)
    case Attach(h, t, l, k) => t in s.handles && Joins(s.m, h, t, l, k) && t in s.m && s.m[t].ref < 0xFFFF
    case Dechain(p, l) => p in s.m && Chain(s.m, Pb(p), l)
    case Shrink(p, _, l) => p in s.m && Chain(s.m, Pb(p), l)
  }

  ghost predicate Joins(m: Mem, h: nat, t: nat, l: seq<nat>, k: seq<nat>) {
    Chain(m, Pb(h), l) && Chain(m, Pb(t), k) && forall x :: x in l ==> x !in k
  }

  function Attached(m: Mem, l: seq<nat>, t: nat): Mem
    requires l != [] && l[|l| - 1] in m && t in m
  {
    var n := Cat(m, l, t);
    if t in n then Ref(n, t) else n
  }

  function Dechained(m: Mem, l: seq<nat>): Mem {
    if |l| > 1 && l[0] in m && l[1] in m then Released(Unchained(m, l), l[1..]) else m
  }

  function Shrunk(m: Mem, l: seq<nat>, newLen: u16): Mem {
    if l != [] && l[0] in m && l[CutAt(m, l, newLen)] in m then Realloc(m, l, newLen) else m
  }

  /** The effect of a call: see the methods of lwip/core/pbuf.c. */
  ghost function Step(s: State, c: Call): State {
    match c
    case Alloc(x, b) => State(s.m[x := b], More(s.handles, x))
    case Take(p) => if p in s.m then State(Ref(s.m, p), More(s.handles, p)) else s
    case Free(p, l) => State(Released(s.m, l), Less(s.handles, p))
    case Concat(h, t, l, _) =>
      if l != [] && l[|l| - 1] in s.m && t in s.m then State(Cat(s.m, l, t), Less(s.handles, t)) else s
    case Attach(h, t, l, _) =>
      if l != [] && l[|l| - 1] in s.m && t in s.m then State(Attached(s.m, l, t), s.handles) else s
    case Dechain(p, l) => State(Dechained(s.m, l), s.handles)
    case Shrink(p, newLen, l) => State(Shrunk(s.m, l, newLen), s.handles)
  }

  ghost function Run(calls: seq<Call>): State {
    if calls == [] then State(map[], multiset{}) else Step(Run(calls[..|calls| - 1]), calls[|calls| - 1])
  }

  ghost predicate AllAllowed(calls: seq<Call>) {
    calls == [] || (AllAllowed(calls[..|calls| - 1]) && Allowed(Run(calls[..|calls| - 1]), calls[|calls| - 1]))
  }

  lemma StepSound(s: State, c: Call)
    requires Sound(s.m, s.handles) && Allowed(s, c)
    ensures Sound(Step(s, c).m, Step(s, c).handles)
  {
    hide Sound, Acyclic, Chain, Released, Realloc, Cat, Unchained, Ref, More, Less, CutAt;
    match c
    case Alloc(x, b) => NewSound(s.m, s.handles, x, b);
    case Take(p) => RefExact(s.m, s.handles, p);
    case Free(p, l) => FreeSound(s.m, s.handles, p, l);
    case Concat(h, t, l, k) => CatSound(s.m, s.handles, h, l, t, k);
    case Attach(h, t, l, k) =>
      ChainSound(s.m, s.handles, h, l, t, k);
      CatRef(s.m, l, t);
    case Dechain(p, l) =>
      ChainStart(s.m, Pb(p), l);
      if |l| > 1 {
        assert l[1] in l;
        DechainSound(s.m, s.handles, p, l);
      }
    case Shrink(p, newLen, l) =>
      ChainStart(s.m, Pb(p), l);
      assert l[CutAt(s.m, l, newLen)] in l;
      ReallocSound(s.m, s.handles, p, l, newLen);
  }

  lemma CatRef(m: Mem, l: seq<nat>, t: nat)
    requires l != [] && l[|l| - 1] in m && t in m
    ensures t in Cat(m, l, t) && Cat(m, l, t)[t].ref == m[t].ref
  {
  }

  /** Over any run of allowed calls every count is the number of next pointers and handles, and no
      chain runs in a circle. */
  lemma {:induction false} RunSound(calls: seq<Call>)
    requires AllAllowed(calls)
    ensures Sound(Run(calls).m, Run(calls).handles)
    decreases |calls|
  {
    if calls == [] {
      assert Sound(map[], multiset{});
    } else {
      RunSound(calls[..|calls| - 1]);
      StepSound(Run(calls[..|calls| - 1]), calls[|calls| - 1]);
    }
  }

  /** Once all handles are given up nothing is left of any pbuf. */
  lemma AllFreed(calls: seq<Call>)
    requires AllAllowed(calls) && Run(calls).handles == multiset{}
    ensures Run(calls).m == map[]
  {
    RunSound(calls);
    var s := Run(calls);
    if s.m != map[] {
      var p: nat :| p in s.m;
      var l :| Chain(s.m, Pb(p), l);
      var h, k := NoLeak(s.m, s.handles, p, l);
    }
  }
}
