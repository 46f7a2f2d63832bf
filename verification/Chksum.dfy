/** The running checksum of a TCP segment, lwip/core/tcp_out.c: pieces of data of any length are
    added one after another (RFC 1071, section 2). */
module Chksum {
  import opened SeqNum

  /** One's-complement sums are sums modulo 2^16 - 1. */
  const ONES := 0xFFFF

  /** The sum of the 16-bit words of a string that starts at an even place, least significant byte
      first. */
  function Words(s: seq<byte>): nat {
    if s == [] then 0
    else Words(s[..|s| - 1]) + Weight(|s|, s[|s| - 1])
  }

  /** What byte number n, counted from 1, adds. */
  function Weight(n: nat, x: byte): nat {
    if n % 2 == 1 then x as nat else 0x100 * (x as nat)
  }

  /** FOLD_U32T() */
  function Fold(x: nat): nat { x / 0x1_0000 + x % 0x1_0000 }

  /** SWAP_BYTES_IN_WORD() */
  function Swap(x: u16): u16 { x % 0x100 * 0x100 + x / 0x100 }

  /** The sum with chksum_swapped undone. */
  function Unswapped(chksum: u16, swapped: bool): u16 {
    if swapped then Swap(chksum) else chksum
  }

  ghost predicate Same(x: int, y: int) { x % ONES == y % ONES }

  /** `sum` is the one's-complement sum of the words of s: zero only for a string of zeros. */
  ghost predicate SumOf(sum: u16, s: seq<byte>) {
    Same(sum, Words(s)) && (sum == 0 <==> Words(s) == 0)
  }

  lemma SumUnique(x: u16, y: u16, s: seq<byte>)
    requires SumOf(x, s) && SumOf(y, s)
    ensures x == y
  {
  }

  /** No carry is lost by folding the sum of two u16 once. */
  lemma FoldExact(x: u16, y: u16)
    ensures Fold(x + y) < 0x1_0000 && Same(Fold(x + y), x + y) && (Fold(x + y) == 0 <==> x + y == 0)
  {
  }

  /** Swapping the bytes multiplies by 256, and twice is nothing. */
  lemma SwapExact(x: u16)
    ensures Same(Swap(x), 0x100 * x) && Swap(Swap(x)) == x && (Swap(x) == 0 <==> x == 0)
  {
  }

  lemma SameShift(x: int, y: int)
    requires Same(x, y)
    ensures Same(0x100 * x, 0x100 * y)
  {
    var k := x / ONES - y / ONES;
    assert x - y == ONES * k;
    assert 0x100 * x == 0x100 * y + ONES * (0x100 * k);
    SameBy(0x100 * x, 0x100 * y, 0x100 * k);
  }

  lemma SameBy(x: int, y: int, k: int)
    requires x == y + ONES * k
    ensures Same(x, y)
  {
  }

  lemma SameAdd(x: int, y: int, u: int, v: int)
    requires Same(x, y) && Same(u, v)
    ensures Same(x + u, y + v)
  {
    SameBy(x + u, y + v, x / ONES - y / ONES + u / ONES - v / ONES);
  }

  /** Words behind an odd number of bytes count swapped. */
  lemma {:induction false} WordsOn(a: seq<byte>, b: seq<byte>)
    ensures Same(Words(a + b), Words(a) + if |a| % 2 == 1 then 0x100 * Words(b) else Words(b))
    ensures Words(a + b) == 0 <==> Words(a) == 0 && Words(b) == 0
    decreases |b|
  {
    if b == [] {
      assert a + b == a;
    } else {
      var c, x := b[..|b| - 1], b[|b| - 1];
      assert (a + b)[..|a + b| - 1] == a + c;
      WordsOn(a, c);
      WordsStep(Words(a + c), Words(a), Words(c), |a|, |b|, x);
    }
  }

  lemma WordsStep(ac: nat, a: nat, c: nat, m: nat, n: nat, x: byte)
    requires Same(ac, a + if m % 2 == 1 then 0x100 * c else c)
    ensures var b := c + Weight(n, x);
            Same(ac + Weight(m + n, x), a + if m % 2 == 1 then 0x100 * b else b)
  {
    var w, v := Weight(n, x), Weight(m + n, x);
    if m % 2 == 1 {
      WeightOdd(m, n, x);
      SameAdd(ac, a + 0x100 * c, v, 0x100 * w);
    } else {
      WeightEven(m, n, x);
      SameAdd(ac, a + c, v, w);
    }
  }

  lemma WeightOdd(m: nat, n: nat, x: byte)
    requires m % 2 == 1
    ensures Same(Weight(m + n, x), 0x100 * Weight(n, x))
  {
    var y: int := x;
    if n % 2 == 1 {
    } else {
      SameBy(y, 0x1_0000 * y, -y);
    }
  }

  lemma WeightEven(m: nat, n: nat, x: byte)
    requires m % 2 == 0
    ensures Weight(m + n, x) == Weight(n, x)
  {
  }

  /** Whatever the length of the piece, undoing the flag afterwards swaps as often as before. */
  lemma FlagExact(f: u16, swapped: bool, odd: bool)
    ensures Unswapped(if odd then Swap(f) else f, swapped != odd) == if swapped then Swap(f) else f
  {
    SwapExact(f);
  }

  lemma AddPlain(f: u16, chksum: u16, d: nat, sum: u16, p: nat)
    requires Same(f, sum + chksum) && Same(chksum, d) && Same(sum, p)
    ensures Same(f, d + p)
  {
    SameAdd(sum, p, chksum, d);
  }

  lemma AddSwapped(f: u16, chksum: u16, d: nat, sum: u16, p: nat)
    requires Same(f, sum + chksum) && Same(Swap(chksum), d) && Same(sum, p)
    ensures Same(Swap(f), d + 0x100 * p)
  {
    SwapExact(f);
    SwapExact(chksum);
    hide Swap;
    SameShift(f, sum + chksum);
    SameShift(sum, p);
    SameAdd(0x100 * sum, 0x100 * p, 0x100 * chksum, d);
  }

  /** What one call does to the sum. */
  lemma AddExact(chksum: u16, swapped: bool, s: seq<byte>, sum: u16, piece: seq<byte>)
    requires SumOf(Unswapped(chksum, swapped), s) && (swapped <==> |s| % 2 == 1) && SumOf(sum, piece)
    ensures var f := Fold(sum + chksum);
            f < 0x1_0000 &&
            var odd := |piece| % 2 == 1;
            SumOf(Unswapped(if odd then Swap(f) else f, swapped != odd), s + piece)
  {
    hide Same, Swap, Fold, Words;
    FoldExact(sum, chksum);
    WordsOn(s, piece);
    SwapExact(chksum);
    var f: u16 := Fold(sum + chksum);
    SwapExact(f);
    FlagExact(f, swapped, |piece| % 2 == 1);
    if swapped {
      AddSwapped(f, chksum, Words(s), sum, Words(piece));
      SameVia(Swap(f), Words(s) + 0x100 * Words(piece), Words(s + piece));
    } else {
      AddPlain(f, chksum, Words(s), sum, Words(piece));
      SameVia(f, Words(s) + Words(piece), Words(s + piece));
    }
  }

  lemma OddSum(a: seq<byte>, b: seq<byte>)
    ensures |a + b| % 2 == 1 <==> ((|a| % 2 == 1) != (|b| % 2 == 1))
  {
  }

  lemma SameVia(x: int, y: int, z: int)
    requires Same(x, y) && Same(z, y)
    ensures Same(x, z)
  {
  }

  /** The checksum fields of a segment. */
  class SegSum {
    var chksum: u16
    var chksumSwapped: bool

    /** The sum of everything that was added, with the flag undone. */
    ghost predicate Sums(data: seq<byte>)
      reads this
    {
      SumOf(Unswapped(chksum, chksumSwapped), data) && (chksumSwapped <==> |data| % 2 == 1)
    }

    constructor ()
      ensures Sums([])
    {
      chksum, chksumSwapped := 0, false;
    }

    /** tcp_seg_add_chksum(): `sum` is the sum of the new piece alone. */
    method TcpSegAddChksum(sum: u16, len: u16, ghost data: seq<byte>, ghost piece: seq<byte>)
      requires Sums(data) && SumOf(sum, piece) && len == |piece|
      modifies this
      ensures Sums(data + piece)
    {
      hide SumOf, Swap, Unswapped, Fold;
      AddExact(chksum, chksumSwapped, data, sum, piece);
      OddSum(data, piece);
      var helper := sum + chksum;
      var c := Fold(helper);
      if len % 2 != 0 {
        chksumSwapped := !chksumSwapped;
        c := Swap(c);
      }
      chksum := c;
    }

    /** Any pieces, with their sums, from a fresh segment: what tcp_output_segment() gets by undoing
        the flag is the sum of all the data in one. */
    method AddAll(sums: seq<u16>, pieces: seq<seq<byte>>) returns (sum: u16, ghost data: seq<byte>)
      requires Sums([]) && |sums| == |pieces|
      requires forall k :: 0 <= k < |pieces| ==> |pieces[k]| < 0x1_0000 && SumOf(sums[k], pieces[k])
      modifies this
      ensures data == Concat(pieces) && Sums(data) && SumOf(sum, data)
    {
      hide SumOf;
      data := [];
      assert pieces[..0] == [];
      for k := 0 to |pieces|
        invariant data == Concat(pieces[..k]) && Sums(data)
      {
        TcpSegAddChksum(sums[k], |pieces[k]|, data, pieces[k]);
        assert pieces[..k + 1][..k] == pieces[..k];
        data := data + pieces[k];
      }
      assert pieces[..|pieces|] == pieces;
      sum := if chksumSwapped then Swap(chksum) else chksum;
    }
  }

  function Concat(pieces: seq<seq<byte>>): seq<byte> {
    if pieces == [] then [] else Concat(pieces[..|pieces| - 1]) + pieces[|pieces| - 1]
  }
}
