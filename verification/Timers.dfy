/** lwip/core/timers.c: the list of timeouts, each stored as the time after the one before it. */
module Timers {
  import opened SeqNum

  datatype Handler = NoHandler | Handler(id: nat)

  datatype Timeo = Timeo(time: u32, h: Handler, arg: nat)

  /** A timeout with its deadline relative to timeouts_last_time. */
  datatype Due = Due(at: nat, h: Handler, arg: nat)

  // ---------------------------------------------------------------- deadlines

  /** The deadlines are the sums of the stored times up to each entry. */
  function Dues(l: seq<Timeo>, base: nat): (d: seq<Due>)
    ensures |d| == |l|
  {
    if l == [] then []
    else [Due(base + l[0].time, l[0].h, l[0].arg)] + Dues(l[1..], base + l[0].time)
  }

  function Total(l: seq<Timeo>): nat {
    if l == [] then 0 else l[0].time + Total(l[1..])
  }

  /** All deadlines fit a u32. */
  ghost predicate Bounded(l: seq<Timeo>) { Total(l) < MODULUS }

  ghost predicate Sorted(d: seq<Due>) {
    forall i, j :: 0 <= i <= j < |d| ==> d[i].at <= d[j].at
  }

  /** The new deadline goes behind all deadlines that are not later. */
  function Insert(d: seq<Due>, x: Due): seq<Due> {
    if d == [] || d[0].at > x.at then [x] + d else [d[0]] + Insert(d[1..], x)
  }

  /** Index of the first entry for this handler and argument, or |d|. */
  function Find(d: seq<Due>, h: Handler, arg: nat): (i: nat)
    ensures i <= |d|
    ensures i < |d| ==> d[i].h == h && d[i].arg == arg
    ensures forall j :: 0 <= j < i ==> d[j].h != h || d[j].arg != arg
  {
    if d == [] then 0 else if d[0].h == h && d[0].arg == arg then 0 else 1 + Find(d[1..], h, arg)
  }

  function Drop(d: seq<Due>, i: nat): seq<Due> {
    if i < |d| then d[..i] + d[i + 1..] else d
  }

  /** How many deadlines, from the front, have been reached. */
  function Expired(d: seq<Due>, diff: nat): (n: nat)
    ensures n <= |d|
    ensures forall i :: 0 <= i < n ==> d[i].at <= diff
    ensures n < |d| ==> d[n].at > diff
  {
    if d == [] || d[0].at > diff then 0 else 1 + Expired(d[1..], diff)
  }

  lemma {:induction false} DuesAt(l: seq<Timeo>, base: nat)
    ensures |Dues(l, base)| == |l|
    ensures Sorted(Dues(l, base)) && forall i :: 0 <= i < |l| ==> base <= Dues(l, base)[i].at <= base + Total(l)
    decreases |l|
  {
    if l != [] {
      hide Sorted;
      var rest := Dues(l[1..], base + l[0].time);
      DuesAt(l[1..], base + l[0].time);
      SortedCons(Due(base + l[0].time, l[0].h, l[0].arg), rest);
    } else {
      NoneSorted();
    }
  }

  lemma SortedCons(x: Due, d: seq<Due>)
    requires Sorted(d) && forall i :: 0 <= i < |d| ==> x.at <= d[i].at
    ensures Sorted([x] + d)
  {
  }

  lemma NoneSorted()
    ensures Sorted([])
  {
  }

  lemma {:induction false} DuesSplit(l: seq<Timeo>, base: nat, k: nat)
    requires k <= |l|
    ensures Total(l) == Total(l[..k]) + Total(l[k..])
    ensures Dues(l, base) == Dues(l[..k], base) + Dues(l[k..], base + Total(l[..k]))
    decreases k
  {
    if k == 0 {
      assert l[0..] == l && l[..0] == [];
    } else {
      DuesSplit(l[1..], base + l[0].time, k - 1);
      assert l[..k][1..] == l[1..][..k - 1] && l[k..] == l[1..][k - 1..];
      assert Dues(l[..k], base) == [Due(base + l[0].time, l[0].h, l[0].arg)] + Dues(l[1..][..k - 1], base + l[0].time);
    }
  }

  // ---------------------------------------------------------------- what insertion means

  /** Everything else keeps its deadline and its order, and the new entry comes after all that are
      due at the same time. */
  lemma {:induction false} InsertExact(d: seq<Due>, x: Due) returns (p: nat)
    requires Sorted(d)
    ensures p <= |d| && Insert(d, x) == d[..p] + [x] + d[p..]
    ensures forall i :: 0 <= i < p ==> d[i].at <= x.at
    ensures forall i :: p <= i < |d| ==> d[i].at > x.at
    decreases |d|
  {
    if d == [] || d[0].at > x.at {
      p := 0;
    } else {
      hide Sorted;
      SortedRest(d);
      var q := InsertExact(d[1..], x);
      p := q + 1;
      InsertedOn(d, q, x);
      assert forall i :: 0 < i < |d| ==> d[i] == d[1..][i - 1];
    }
  }

  lemma SortedRest(d: seq<Due>)
    requires d != [] && Sorted(d)
    ensures Sorted(d[1..])
  {
  }

  lemma InsertedOn(d: seq<Due>, q: nat, x: Due)
    requires q < |d|
    ensures [d[0]] + (d[1..][..q] + [x] + d[1..][q..]) == d[..q + 1] + [x] + d[q + 1..]
  {
  }

  /** Inserting behind a prefix whose deadlines are not later. */
  lemma {:induction false} InsertBehind(a: seq<Due>, b: seq<Due>, x: Due)
    requires forall i :: 0 <= i < |a| ==> a[i].at <= x.at
    ensures Insert(a + b, x) == a + Insert(b, x)
    decreases |a|
  {
    if a == [] {
      assert a + b == b;
    } else {
      InsertBehind(a[1..], b, x);
      assert (a + b)[1..] == a[1..] + b;
    }
  }

  /** The entries behind a new one that comes t after `base`. */
  function Behind(b: seq<Timeo>, t: u32, h: Handler, arg: nat): seq<Timeo>
    requires b != [] ==> b[0].time > t
  {
    [Timeo(t, h, arg)] + if b != [] then [b[0].(time := b[0].time - t)] + b[1..] else []
  }

  lemma BehindDues(b: seq<Timeo>, t: u32, h: Handler, arg: nat, base: nat)
    requires b != [] ==> b[0].time > t
    ensures Dues(Behind(b, t, h, arg), base) == Insert(Dues(b, base), Due(base + t, h, arg))
    ensures Total(Behind(b, t, h, arg)) == if b != [] then Total(b) else t
  {
    var c := Behind(b, t, h, arg);
    assert c[0] == Timeo(t, h, arg);
    if b != [] {
      assert c[1..][0] == b[0].(time := b[0].time - t) && c[1..][1..] == b[1..];
      assert Dues(c[1..], base + t) == Dues(b, base);
      assert Total(c[1..]) == Total(b) - t;
    } else {
      assert c[1..] == [];
    }
  }

  /** What the loop of sys_timeout() does behind the first k entries, where it stops. */
  lemma InsertHere(l: seq<Timeo>, k: nat, msecs: u32, h: Handler, arg: nat)
    requires k <= |l| && Total(l[..k]) <= msecs && (k < |l| ==> l[k].time > msecs - Total(l[..k]))
    ensures var r := l[..k] + Behind(l[k..], msecs - Total(l[..k]), h, arg);
            && Dues(r, 0) == Insert(Dues(l, 0), Due(msecs, h, arg))
            && Total(r) == if k < |l| then Total(l) else msecs
  {
    hide Insert, Behind;
    var a, b, t := l[..k], l[k..], msecs - Total(l[..k]);
    var r := a + Behind(b, t, h, arg);
    DuesSplit(l, 0, k);
    DuesSplit(r, 0, k);
    DuesAt(a, 0);
    assert r[..k] == a && r[k..] == Behind(b, t, h, arg);
    InsertBehind(Dues(a, 0), Dues(b, Total(a)), Due(msecs, h, arg));
    BehindDues(b, t, h, arg, Total(a));
  }

  /** Taking out entry i and adding its time to the next one. */
  lemma RemoveHere(l: seq<Timeo>, i: nat)
    requires i < |l| && Bounded(l)
    ensures i + 1 < |l| ==> l[i + 1].time + l[i].time < MODULUS
    ensures var l1 := if i + 1 < |l| then l[i + 1 := l[i + 1].(time := l[i + 1].time + l[i].time)] else l;
            var r := l1[..i] + l1[i + 1..];
            Dues(r, 0) == Drop(Dues(l, 0), i) && Total(r) <= Total(l)
  {
    hide Dues, Total, Drop;
    var a, b := l[..i], l[i..];
    DuesSplit(l, 0, i);
    DropBehind(a, b);
    if i + 1 < |l| {
      assert b[1] == l[i + 1];
      Absorbed(b, Total(a));
      var l1 := l[i + 1 := l[i + 1].(time := l[i + 1].time + l[i].time)];
      var r := l1[..i] + l1[i + 1..];
      assert r[..i] == a && r[i..] == [b[1].(time := b[1].time + b[0].time)] + b[2..];
      DuesSplit(r, 0, i);
    } else {
      LastAlone(b, Total(a));
      assert b == [l[i]];
      assert l[..i] + l[i + 1..] == a && Dues(a, 0) + [] == Dues(a, 0);
    }
  }

  /** The deadlines of a are those before the first of b. */
  lemma DropBehind(a: seq<Timeo>, b: seq<Timeo>)
    requires b != []
    ensures Dues(b, Total(a)) != [] && Drop(Dues(a, 0) + Dues(b, Total(a)), |a|) == Dues(a, 0) + Dues(b, Total(a))[1..]
  {
    DuesAt(a, 0);
    DuesAt(b, Total(a));
    hide Dues, Total;
  }

  lemma LastAlone(b: seq<Timeo>, base: nat)
    requires |b| == 1
    ensures Dues(b, base)[1..] == [] && Total(b) >= 0
  {
    DuesAt(b, base);
  }

  /** The first entry's time, added to the second, leaves the deadlines behind the first. */
  lemma Absorbed(b: seq<Timeo>, base: nat)
    requires |b| > 1
    ensures Total(b) >= b[0].time + b[1].time
    ensures b[1].time + b[0].time < MODULUS ==>
      var c := [b[1].(time := b[1].time + b[0].time)] + b[2..];
      Total(c) == Total(b) && |Dues(b, base)| == |b| && Dues(c, base) == Dues(b, base)[1..]
  {
    DuesAt(b, base);
    assert b[1..][0] == b[1] && b[1..][1..] == b[2..];
    assert Total(b[1..]) == b[1].time + Total(b[2..]);
    assert Dues(b, base)[1..] == Dues(b[1..], base + b[0].time);
    if b[1].time + b[0].time < MODULUS {
      var c := [b[1].(time := b[1].time + b[0].time)] + b[2..];
      assert c[1..] == b[2..];
    }
  }

  lemma FindHere(l: seq<Timeo>, i: nat, h: Handler, arg: nat)
    requires i <= |l| && (forall j :: 0 <= j < i ==> l[j].h != h || l[j].arg != arg)
    requires i < |l| ==> l[i].h == h && l[i].arg == arg
    ensures Find(Dues(l, 0), h, arg) == i
  {
    DuesAt(l, 0);
    DuesKeep(l, 0);
  }

  lemma {:induction false} DuesKeep(l: seq<Timeo>, base: nat)
    ensures |Dues(l, base)| == |l|
    ensures forall i :: 0 <= i < |l| ==> Dues(l, base)[i].h == l[i].h && Dues(l, base)[i].arg == l[i].arg
    decreases |l|
  {
    if l != [] {
      DuesKeep(l[1..], base + l[0].time);
      assert forall i :: 0 < i < |l| ==> Dues(l, base)[i] == Dues(l[1..], base + l[0].time)[i - 1] && l[i] == l[1..][i - 1];
    }
  }

  /** The deadline of entry n is the sum of the times before it and its own. */
  lemma DueHere(l: seq<Timeo>, n: nat)
    requires n < |l|
    ensures |Dues(l, 0)| == |l| && Dues(l, 0)[n] == Due(Total(l[..n]) + l[n].time, l[n].h, l[n].arg)
    ensures Total(l[..n + 1]) == Total(l[..n]) + l[n].time
  {
    DuesSplit(l, 0, n);
    DuesAt(l[..n], 0);
    DuesAt(l, 0);
    assert l[n..][0] == l[n];
    DuesSplit(l[..n + 1], 0, n);
    assert l[..n + 1][..n] == l[..n] && l[..n + 1][n..] == [l[n]];
  }

  lemma {:induction false} DuesShift(l: seq<Timeo>, base: nat)
    ensures forall i :: 0 <= i < |l| ==> Dues(l, base)[i].at == base + Dues(l, 0)[i].at
    decreases |l|
  {
    if l != [] {
      DuesShift(l[1..], base + l[0].time);
      DuesShift(l[1..], l[0].time);
    }
  }

  // ---------------------------------------------------------------- handlers that change the list

  /** What a handler does to the list when it is called. */
  datatype Action =
    | Set(msecs: u32, h: Handler, arg: nat, ok: bool) // sys_timeout(), and whether there is memory
    | Unset(h: Handler, arg: nat)                     // sys_untimeout()

  /** The effect of an action on deadlines, when times count from `base`. */
  function Act(d: seq<Due>, base: nat, a: Action): seq<Due> {
    match a
    case Set(msecs, h, arg, ok) => if ok then Insert(d, Due(base + msecs, h, arg)) else d
    case Unset(h, arg) => Drop(d, Find(d, h, arg))
  }

  function ActAll(d: seq<Due>, base: nat, acts: seq<Action>): seq<Due> {
    if acts == [] then d else Act(ActAll(d, base, acts[..|acts| - 1]), base, acts[|acts| - 1])
  }

  /** What is fired, in order; what is left; and the deadline from which times count at the end. */
  datatype Checked = Checked(fired: seq<Due>, rest: seq<Due>, base: nat)

  /** Fire deadlines up to `limit`. The k-th handler that is called does acts[k], and those behind the
      last of these nothing. A timeout that is set counts from the deadline that has just fired. */
  function Check(d: seq<Due>, base: nat, limit: nat, acts: seq<seq<Action>>): Checked
    decreases |acts|, |d|
  {
    if d == [] || d[0].at > limit then Checked([], d, base)
    else
      var mute := d[0].h == NoHandler || acts == [];
      var r := if mute then Check(d[1..], d[0].at, limit, acts)
               else Check(ActAll(d[1..], d[0].at, acts[0]), d[0].at, limit, acts[1..]);
      r.(fired := [d[0]] + r.fired)
  }

  lemma InsertSorted(d: seq<Due>, x: Due, low: nat)
    requires Sorted(d) && From(d, low) && x.at >= low
    ensures Sorted(Insert(d, x)) && From(Insert(d, x), low)
  {
    hide Insert;
    var p := InsertExact(d, x);
  }

  lemma {:induction false} ActSorted(d: seq<Due>, base: nat, acts: seq<Action>)
    requires Sorted(d) && From(d, base)
    ensures Sorted(ActAll(d, base, acts)) && From(ActAll(d, base, acts), base)
    decreases |acts|
  {
    hide Insert, Find;
    if acts != [] {
      var before := ActAll(d, base, acts[..|acts| - 1]);
      ActSorted(d, base, acts[..|acts| - 1]);
      match acts[|acts| - 1]
      case Set(msecs, h, arg, ok) => if ok { InsertSorted(before, Due(base + msecs, h, arg), base); }
      case Unset(h, arg) =>
    }
  }

  ghost predicate From(d: seq<Due>, low: nat) { forall i :: 0 <= i < |d| ==> d[i].at >= low }

  ghost predicate Until(d: seq<Due>, high: nat) { forall i :: 0 <= i < |d| ==> d[i].at <= high }

  /** Whatever the handlers set or remove: what fires is due, and fires in the order of the deadlines;
      and nothing is left that is due. */
  lemma {:induction false} CheckExact(d: seq<Due>, base: nat, limit: nat, acts: seq<seq<Action>>)
    requires Sorted(d) && From(d, base) && base <= limit
    ensures var r := Check(d, base, limit, acts);
            && Sorted(r.fired) && From(r.fired, base) && Until(r.fired, limit)
            && Sorted(r.rest) && From(r.rest, limit + 1)
            && r.base == if r.fired == [] then base else r.fired[|r.fired| - 1].at
    decreases |acts|, |d|
  {
    hide ActAll, Sorted, From, Until;
    NoneFrom(base, limit);
    if d == [] || d[0].at > limit {
      RestFrom(d, limit);
    } else {
      FirstFrom(d, base);
      if d[0].h == NoHandler || acts == [] {
        CheckExact(d[1..], d[0].at, limit, acts);
        FiredOn(d[0], Check(d[1..], d[0].at, limit, acts).fired, base, limit);
      } else {
        ActSorted(d[1..], d[0].at, acts[0]);
        CheckExact(ActAll(d[1..], d[0].at, acts[0]), d[0].at, limit, acts[1..]);
        FiredOn(d[0], Check(ActAll(d[1..], d[0].at, acts[0]), d[0].at, limit, acts[1..]).fired, base, limit);
      }
    }
  }

  lemma NoneFrom(low: nat, high: nat)
    ensures Sorted([]) && From([], low) && Until([], high)
  {
  }

  lemma RestFrom(d: seq<Due>, limit: nat)
    requires Sorted(d) && (d != [] ==> d[0].at > limit)
    ensures From(d, limit + 1)
  {
  }

  lemma FirstFrom(d: seq<Due>, base: nat)
    requires d != [] && Sorted(d) && From(d, base)
    ensures base <= d[0].at && Sorted(d[1..]) && From(d[1..], d[0].at)
  {
  }

  lemma FiredOn(x: Due, f: seq<Due>, base: nat, limit: nat)
    requires Sorted(f) && From(f, x.at) && Until(f, limit) && base <= x.at <= limit
    ensures Sorted([x] + f) && From([x] + f, base) && Until([x] + f, limit)
  {
  }

  /** Handlers that leave the list alone: exactly what is due at the start fires. */
  lemma {:induction false} CheckQuiet(d: seq<Due>, base: nat, limit: nat)
    ensures var r := Check(d, base, limit, []); r.fired == d[..Expired(d, limit)] && r.rest == d[Expired(d, limit)..]
    decreases |d|
  {
    if d != [] && d[0].at <= limit {
      CheckQuiet(d[1..], d[0].at, limit);
      var n := Expired(d[1..], limit);
      assert d[..n + 1] == [d[0]] + d[1..][..n] && d[n + 1..] == d[1..][n..];
    }
  }

  /** How often entry x is among those that fired and those that are left. */
  ghost function Times(r: Checked, x: Due): nat { multiset(r.fired)[x] + multiset(r.rest)[x] }

  /** No handler sets or removes a timeout for this handler and argument. */
  ghost predicate Quiet(acts: seq<seq<Action>>, h: Handler, arg: nat) {
    forall k :: 0 <= k < |acts| ==> QuietOne(acts[k], h, arg)
  }

  ghost predicate QuietOne(acts: seq<Action>, h: Handler, arg: nat) {
    forall i :: 0 <= i < |acts| ==> acts[i].h != h || acts[i].arg != arg
  }

  lemma {:induction false} InsertCount(d: seq<Due>, x: Due)
    ensures multiset(Insert(d, x)) == multiset(d) + multiset{x}
  {
    if d != [] {
      assert d == [d[0]] + d[1..];
      if d[0].at <= x.at { InsertCount(d[1..], x); }
    }
  }

  lemma DropCount(d: seq<Due>, i: nat)
    requires i < |d|
    ensures multiset(Drop(d, i)) + multiset{d[i]} == multiset(d)
  {
    assert d == d[..i] + [d[i]] + d[i + 1..];
  }

  /** One action adds an entry, or takes away the first that matches. */
  lemma ActCount(d: seq<Due>, base: nat, a: Action)
    ensures a.Set? ==> multiset(Act(d, base, a)) == multiset(d) + if a.ok then multiset{Due(base + a.msecs, a.h, a.arg)} else multiset{}
    ensures a.Unset? ==> var i := Find(d, a.h, a.arg);
                         if i < |d| then multiset(Act(d, base, a)) + multiset{d[i]} == multiset(d) else Act(d, base, a) == d
  {
    hide Insert, Drop;
    match a
    case Set(msecs, h, arg, ok) => if ok { InsertCount(d, Due(base + msecs, h, arg)); }
    case Unset(h, arg) =>
      var i := Find(d, h, arg);
      if i < |d| { DropCount(d, i); } else { DropNone(d); }
  }

  lemma DropNone(d: seq<Due>)
    ensures Drop(d, |d|) == d
  {
  }

  lemma {:induction false} QuietCount(d: seq<Due>, base: nat, acts: seq<Action>, x: Due)
    requires QuietOne(acts, x.h, x.arg)
    ensures multiset(ActAll(d, base, acts))[x] == multiset(d)[x]
    decreases |acts|
  {
    if acts != [] {
      hide Act, Find;
      QuietCount(d, base, acts[..|acts| - 1], x);
      ActCount(ActAll(d, base, acts[..|acts| - 1]), base, acts[|acts| - 1]);
    }
  }

  /** One turn: the head fires, and its handler acts on the others. */
  lemma TurnCount(d: seq<Due>, base: nat, limit: nat, acts: seq<seq<Action>>, x: Due)
    requires d != [] && d[0].at <= limit
    ensures var mute := d[0].h == NoHandler || acts == [];
            Times(Check(d, base, limit, acts), x) == (if x == d[0] then 1 else 0)
              + if mute then Times(Check(d[1..], d[0].at, limit, acts), x)
                else Times(Check(ActAll(d[1..], d[0].at, acts[0]), d[0].at, limit, acts[1..]), x)
  {
    hide ActAll;
  }

  /** No timeout is lost or invented: one that no handler touches fires, or is left, as often as it was
      there. */
  lemma {:induction false} CheckKeeps(d: seq<Due>, base: nat, limit: nat, acts: seq<seq<Action>>, x: Due)
    requires Quiet(acts, x.h, x.arg)
    ensures Times(Check(d, base, limit, acts), x) == multiset(d)[x]
    decreases |acts|, |d|
  {
    if d != [] && d[0].at <= limit {
      hide Times, ActAll, QuietOne;
      HeadCount(d, x);
      TurnCount(d, base, limit, acts, x);
      if d[0].h == NoHandler || acts == [] {
        CheckKeeps(d[1..], d[0].at, limit, acts, x);
      } else {
        QuietCount(d[1..], d[0].at, acts[0], x);
        CheckKeeps(ActAll(d[1..], d[0].at, acts[0]), d[0].at, limit, acts[1..], x);
      }
    } else {
      hide ActAll;
    }
  }

  /** A timeout that a handler sets counts from the deadline of the one that has just fired, and is there
      once more; one that it removes is there once less. */
  lemma CheckActs(d: seq<Due>, base: nat, limit: nat, acts: seq<seq<Action>>, x: Due)
    requires d != [] && d[0].at <= limit && d[0].h != NoHandler && acts != [] && |acts[0]| == 1
    requires Quiet(acts[1..], x.h, x.arg)
    ensures acts[0][0].Set? && acts[0][0].ok && x == Due(d[0].at + acts[0][0].msecs, acts[0][0].h, acts[0][0].arg) ==>
              Times(Check(d, base, limit, acts), x) == multiset(d)[x] + 1
    ensures acts[0][0].Unset? && Find(d[1..], acts[0][0].h, acts[0][0].arg) < |d| - 1
            && x == d[1..][Find(d[1..], acts[0][0].h, acts[0][0].arg)] ==>
              Times(Check(d, base, limit, acts), x) == multiset(d)[x] - 1
  {
    hide Times, Check, Act, Quiet, Find;
    var a, rest := acts[0][0], ActAll(d[1..], d[0].at, acts[0]);
    HeadCount(d, x);
    OneAct(d[1..], d[0].at, acts[0]);
    TurnCount(d, base, limit, acts, x);
    CheckKeeps(rest, d[0].at, limit, acts[1..], x);
    ActCount(d[1..], d[0].at, a);
  }

  lemma HeadCount(d: seq<Due>, x: Due)
    requires d != []
    ensures multiset(d)[x] == multiset(d[1..])[x] + if x == d[0] then 1 else 0
  {
    assert d == [d[0]] + d[1..];
  }

  lemma OneAct(d: seq<Due>, base: nat, acts: seq<Action>)
    requires |acts| == 1
    ensures ActAll(d, base, acts) == Act(d, base, acts[0])
  {
    assert acts[..0] == [];
  }

  /** After a check that fired something timeouts_last_time is the time of the check, and not the last
      deadline: all that are left come later than they were due, by the lateness of the last one fired,
      and never earlier. */
  lemma NeverEarly(d: seq<Due>, limit: nat, acts: seq<seq<Action>>, l: seq<Timeo>, i: nat)
    requires Sorted(d) && Dues(l, Check(d, 0, limit, acts).base) == Check(d, 0, limit, acts).rest && i < |l|
    ensures var r := Check(d, 0, limit, acts);
            var late := limit - r.base;
            && late >= 0 && limit + Dues(l, 0)[i].at == r.rest[i].at + late
            && (r.fired != [] ==> r.base == r.fired[|r.fired| - 1].at)
  {
    CheckExact(d, 0, limit, acts);
    hide Check;
    DuesShift(l, Check(d, 0, limit, acts).base);
  }

  // ---------------------------------------------------------------- deadlines from another base

  function Shifted(d: seq<Due>, base: nat): seq<Due> {
    seq(|d|, i requires 0 <= i < |d| => d[i].(at := base + d[i].at))
  }

  lemma {:induction false} DuesFrom(l: seq<Timeo>, base: nat)
    ensures Dues(l, base) == Shifted(Dues(l, 0), base)
  {
    DuesAt(l, base);
    DuesAt(l, 0);
    DuesShift(l, base);
    DuesKeep(l, base);
    DuesKeep(l, 0);
    hide Dues, Sorted;
  }

  lemma {:induction false} InsertFrom(d: seq<Due>, x: Due, base: nat)
    ensures Insert(Shifted(d, base), x.(at := base + x.at)) == Shifted(Insert(d, x), base)
    decreases |d|
  {
    if d != [] {
      assert Shifted(d, base)[1..] == Shifted(d[1..], base);
      InsertFrom(d[1..], x, base);
    }
  }

  lemma {:induction false} FindFrom(d: seq<Due>, h: Handler, arg: nat, base: nat)
    ensures Find(Shifted(d, base), h, arg) == Find(d, h, arg)
    decreases |d|
  {
    if d != [] {
      assert Shifted(d, base)[1..] == Shifted(d[1..], base);
      FindFrom(d[1..], h, arg, base);
    }
  }

  lemma DropFrom(d: seq<Due>, i: nat, base: nat)
    ensures Drop(Shifted(d, base), i) == Shifted(Drop(d, i), base)
  {
  }

  /** An action on the list, seen from any base. */
  lemma ActFrom(l: seq<Timeo>, r: seq<Timeo>, a: Action, base: nat)
    requires Dues(r, 0) == Act(Dues(l, 0), 0, a)
    ensures Dues(r, base) == Act(Dues(l, base), base, a)
  {
    hide Dues, Insert, Find, Drop, Shifted;
    DuesFrom(l, base);
    DuesFrom(r, base);
    match a
    case Set(msecs, h, arg, _) => InsertFrom(Dues(l, 0), Due(msecs, h, arg), base);
    case Unset(h, arg) =>
      FindFrom(Dues(l, 0), h, arg, base);
      DropFrom(Dues(l, 0), Find(Dues(l, 0), h, arg), base);
  }

  /** The class: next_timeout is the head of the list. */
  class SysTimeouts {
    var list: seq<Timeo>
    var timeoutsLastTime: u32

    ghost predicate Valid()
      reads this
    {
      Bounded(list)
    }

    constructor (now: u32)
      ensures Valid() && list == [] && timeoutsLastTime == now
    {
      list := [];
      timeoutsLastTime := now;
    }

    /** sys_timeout(): no stored time underflows, the new deadline is `msecs` from
        timeouts_last_time, and all others stay. */
    method SysTimeout(msecs: u32, h: Handler, arg: nat, ok: bool)
      requires Valid()
      modifies `list
      ensures Valid()
      ensures Dues(list, 0) == if ok then Insert(Dues(old(list), 0), Due(msecs, h, arg)) else Dues(old(list), 0)
    {
      if !ok {
        return;
      }
      hide Dues, Insert, Total;
      ghost var l := list;
      var timeout := Timeo(msecs, h, arg);
      if list == [] {
        InsertFront(l, msecs, h, arg);
        list := [timeout];
        assert list == [timeout] + [];
      } else if list[0].time > msecs {
        InsertFront(l, msecs, h, arg);
        list := list[0 := list[0].(time := list[0].time - msecs)];
        list := [timeout] + list;
        assert list == [timeout] + ([l[0].(time := l[0].time - msecs)] + l[1..]);
      } else {
        Search(msecs, h, arg);
      }
    }

    /** The loop of sys_timeout(). */
    method Search(msecs: u32, h: Handler, arg: nat)
      requires Valid() && list != [] && list[0].time <= msecs
      modifies `list
      ensures Valid() && Dues(list, 0) == Insert(Dues(old(list), 0), Due(msecs, h, arg))
    {
      hide Dues, Insert, Total;
      ghost var l := list;
      var timeout := Timeo(msecs, h, arg);
      var k := 0;
      TotalNone(l);
      while true
        invariant k < |l| && list == l && Total(l[..k]) <= msecs && l[k].time <= msecs - Total(l[..k])
        invariant timeout == Timeo(msecs - Total(l[..k]), h, arg)
        decreases |l| - k
      {
        DueHere(l, k);
        timeout := timeout.(time := timeout.time - list[k].time);
        if k + 1 == |list| || list[k + 1].time > timeout.time {
          InsertHere(l, k + 1, msecs, h, arg);
          if k + 1 < |list| {
            list := list[k + 1 := list[k + 1].(time := list[k + 1].time - timeout.time)];
          }
          list := list[..k + 1] + [timeout] + list[k + 1..];
          assert list == l[..k + 1] + Behind(l[k + 1..], timeout.time, h, arg);
          return;
        }
        k := k + 1;
      }
    }

    /** sys_untimeout(): removes the first entry for the handler and argument, if there is one, and
        no other deadline changes. */
    method SysUntimeout(h: Handler, arg: nat)
      requires Valid()
      modifies `list
      ensures Valid()
      ensures var d := Dues(old(list), 0); Dues(list, 0) == Drop(d, Find(d, h, arg))
    {
      ghost var l := list;
      DuesAt(l, 0);
      var i := 0;
      while i < |list|
        invariant 0 <= i <= |l| && list == l
        invariant forall j :: 0 <= j < i ==> l[j].h != h || l[j].arg != arg
      {
        if list[i].h == h && list[i].arg == arg {
          RemoveHere(l, i);
          FindHere(l, i, h, arg);
          var t := list[i].time;
          if i + 1 < |list| {
            list := list[i + 1 := list[i + 1].(time := list[i + 1].time + t)];
          }
          list := list[..i] + list[i + 1..];
          return;
        }
        i := i + 1;
      }
      FindHere(l, i, h, arg);
    }

    /** What a handler does. */
    method Perform(acts: seq<Action>, ghost base: nat)
      requires Valid()
      modifies `list
      ensures Valid() && Dues(list, base) == ActAll(Dues(old(list), base), base, acts)
    {
      hide Dues, Act, Bounded;
      ghost var l := list;
      assert acts[..0] == [];
      for k := 0 to |acts|
        invariant Valid() && Dues(list, base) == ActAll(Dues(l, base), base, acts[..k])
      {
        ghost var before := list;
        PerformOne(acts[k]);
        ActFrom(before, list, acts[k], base);
        assert acts[..k + 1][..k] == acts[..k];
      }
      assert acts[..|acts|] == acts;
    }

    method PerformOne(a: Action)
      requires Valid()
      modifies `list
      ensures Valid() && Dues(list, 0) == Act(Dues(old(list), 0), 0, a)
    {
      hide Dues, Insert, Find, Drop, Bounded;
      match a
      case Set(msecs, h, arg, ok) => SysTimeout(msecs, h, arg, ok);
      case Unset(h, arg) => SysUntimeout(h, arg);
    }

    /** sys_check_timeouts(): the deadlines that are reached fire, those set by a handler included; their
        handlers are `called` in this order. The k-th one called does acts[k]. */
    method SysCheckTimeouts(now: u32, acts: seq<seq<Action>>) returns (called: seq<(Handler, nat)>, ghost base: nat)
      requires Valid()
      modifies this
      ensures Valid()
      ensures var r := Check(Dues(old(list), 0), 0, Wrap(now - old(timeoutsLastTime)), acts);
              && called == Calls(r.fired) && base == r.base
              && Dues(list, base) == r.rest
              && timeoutsLastTime == if r.fired != [] then now else old(timeoutsLastTime)
    {
      hide Dues, Total, Calls, ActAll, Check;
      called, base := [], 0;
      ghost var all := Wrap(now - timeoutsLastTime);
      ghost var whole := Check(Dues(list, 0), 0, all, acts);
      ghost var fired: seq<Due> := [];
      CallsNone();
      NothingFired(Dues(list, 0), all, acts);
      if list != [] {
        var diff := Wrap(now - timeoutsLastTime);
        var hadOne := true;
        var todo := acts;
        while hadOne
          invariant Bounded(list) && base + diff == all
          invariant called == Calls(fired) && whole == Continued(fired, Check(Dues(list, base), base, all, todo))
          invariant !hadOne ==> whole == Checked(fired, Dues(list, base), base)
          invariant timeoutsLastTime == if fired != [] then now else old(timeoutsLastTime)
          decreases |todo|, |list|, hadOne
        {
          hadOne := false;
          CheckOne(list, base, all, todo);
          if list != [] && list[0].time <= diff {
            TotalRest(list);
            ghost var first := Due(base + list[0].time, list[0].h, list[0].arg);
            CallsOn(fired, first);
            ContinuedOn(fired, first);
            hadOne := true;
            timeoutsLastTime := now;
            diff := diff - list[0].time;
            base := base + list[0].time;
            fired := fired + [first];
            var handler, arg := list[0].h, list[0].arg;
            list := list[1..];
            if handler != NoHandler {
              called := called + [(handler, arg)];
              if todo != [] {
                Perform(todo[0], base);
                todo := todo[1..];
              }
            }
          }
        }
      } else {
        CheckOne(list, 0, all, acts);
      }
    }
  }

  /** What has fired, and what the rest of the check gives. */
  function Continued(fired: seq<Due>, r: Checked): Checked { r.(fired := fired + r.fired) }

  lemma NothingFired(d: seq<Due>, limit: nat, acts: seq<seq<Action>>)
    ensures Continued([], Check(d, 0, limit, acts)) == Check(d, 0, limit, acts)
  {
    hide Check;
  }

  /** One turn of the loop. */
  lemma CheckOne(l: seq<Timeo>, base: nat, limit: nat, acts: seq<seq<Action>>)
    ensures l == [] || base + l[0].time > limit ==> Check(Dues(l, base), base, limit, acts) == Checked([], Dues(l, base), base)
    ensures l != [] && base + l[0].time <= limit ==>
      var first := Due(base + l[0].time, l[0].h, l[0].arg);
      Check(Dues(l, base), base, limit, acts) == Continued([first],
        if first.h == NoHandler || acts == [] then Check(Dues(l[1..], first.at), first.at, limit, acts)
        else Check(ActAll(Dues(l[1..], first.at), first.at, acts[0]), first.at, limit, acts[1..]))
  {
    hide ActAll;
    if l != [] { assert Dues(l, base)[1..] == Dues(l[1..], base + l[0].time); }
  }

  lemma ContinuedOn(fired: seq<Due>, first: Due)
    ensures forall r: Checked :: Continued(fired, Continued([first], r)) == Continued(fired + [first], r)
  {
    forall r: Checked ensures Continued(fired, Continued([first], r)) == Continued(fired + [first], r) {
      assert fired + ([first] + r.fired) == fired + [first] + r.fired;
    }
  }

  lemma TotalRest(l: seq<Timeo>)
    requires l != []
    ensures Total(l[1..]) <= Total(l)
  {
  }

  lemma TotalNone(l: seq<Timeo>)
    ensures Total(l[..0]) == 0
  {
  }

  lemma CallsNone()
    ensures Calls([]) == []
  {
  }

  lemma InsertFront(l: seq<Timeo>, msecs: u32, h: Handler, arg: nat)
    requires l != [] ==> l[0].time > msecs
    ensures var r := [Timeo(msecs, h, arg)] + if l != [] then [l[0].(time := l[0].time - msecs)] + l[1..] else [];
            && Dues(r, 0) == Insert(Dues(l, 0), Due(msecs, h, arg))
            && Total(r) == if l != [] then Total(l) else msecs
  {
    BehindDues(l, msecs, h, arg, 0);
  }

  /** The calls for timeouts that fire. */
  function Calls(d: seq<Due>): seq<(Handler, nat)> {
    if d == [] then []
    else Calls(d[..|d| - 1]) + if d[|d| - 1].h != NoHandler then [(d[|d| - 1].h, d[|d| - 1].arg)] else []
  }

  lemma CallsOn(d: seq<Due>, x: Due)
    ensures Calls(d + [x]) == if x.h != NoHandler then Calls(d) + [(x.h, x.arg)] else Calls(d)
  {
    assert (d + [x])[..|d|] == d;
    assert Calls(d) + [] == Calls(d);
  }
}
