/**
 LRU over a nested policy, whatever that policy is: the outer order picks the nested state, which
 picks the way within its group. Until every way has been filled once, misses fill them in turn.
 */
module LruWrapped {
  import opened Machines
  import opened Orders

  /** Ways below dirty have been filled. */
  datatype Wrapped<X> = Wrapped(parts: TwoLevel<X>, dirty: nat)

  function Level<X>(): Wrapped<X> -> nat { (s: Wrapped<X>) => s.dirty }

  /** Quotient and remainder by the number w of nested ways (see GroupSplits). */
  function Group(way: nat, w: nat): nat {
    if w == 0 || way < w then 0 else 1 + Group(way - w, w)
  }

  function Slot(way: nat, w: nat): nat {
    if w == 0 || way < w then way else Slot(way - w, w)
  }

  /** With w nested ways, a way belongs to group way / w, where it is number way % w. */
  function WrappedHit<X>(inner: Machine<X>): (Wrapped<X>, nat) -> Wrapped<X> {
    (s: Wrapped<X>, way: nat) =>
      var lru := Group(way, inner.ways);
      if lru < |s.parts.inner| then
        Wrapped(TwoLevel(Touch(s.parts.order, lru),
                         s.parts.inner[lru := inner.hit(s.parts.inner[lru], Slot(way, inner.ways))]), s.dirty)
      else s
  }

  function WrappedMiss<X>(n: nat, inner: Machine<X>): Wrapped<X> -> Wrapped<X> {
    (s: Wrapped<X>) =>
      if s.dirty < Times(inner.ways, n) then WrappedHit(inner)(s.(dirty := s.dirty + 1), s.dirty)
      else Wrapped(Advance(s.parts, inner.miss), s.dirty)
  }

  function PartsVictim<X>(c: TwoLevel<X>, inner: Machine<X>): nat {
    var lru := LeastRecent(c.order);
    if lru < |c.inner| then Times(lru, inner.ways) + inner.victim(c.inner[lru]) else 0
  }

  function WrappedVictim<X>(n: nat, inner: Machine<X>): Wrapped<X> -> nat {
    (s: Wrapped<X>) => if s.dirty < Times(inner.ways, n) then s.dirty else PartsVictim(s.parts, inner)
  }

  function WrappedMachine<X>(n: nat, inner: Machine<X>): Machine<Wrapped<X>> {
    Machine(Times(inner.ways, n), WrappedHit(inner), WrappedMiss(n, inner), WrappedVictim(n, inner))
  }

  // ----- The invariant -----

  ghost predicate Good<X>(c: TwoLevel<X>, n: nat, inv: X -> bool) {
    IsOrder(c.order, n) && |c.inner| == n && forall j :: 0 <= j < n ==> inv(c.inner[j])
  }

  ghost function WrappedOf<X>(n: nat, inner: Machine<X>, inv: X -> bool): Wrapped<X> -> bool {
    (s: Wrapped<X>) => Good(s.parts, n, inv) && s.dirty <= Times(inner.ways, n)
  }

  lemma {:induction false} GroupSplits(way: nat, w: nat)
    requires w > 0
    ensures way == Times(Group(way, w), w) + Slot(way, w) && Slot(way, w) < w
  {
    if way >= w { GroupSplits(way - w, w); }
  }

  lemma GroupBound(way: nat, n: nat, w: nat)
    requires way < Times(w, n)
    ensures w > 0 && Group(way, w) < n && Slot(way, w) < w
  {
    TimesCommutes(w, n);
    GroupSplits(way, w);
    if Group(way, w) >= n { TimesMonotone(n, Group(way, w), w); }
  }

  /** The numbering of ways: what a miss returns, a hit takes apart again. */
  lemma GroupOfNumber(x: nat, y: nat, w: nat)
    requires y < w
    ensures Group(Times(x, w) + y, w) == x && Slot(Times(x, w) + y, w) == y
  {
    GroupSplits(Times(x, w) + y, w);
    if Group(Times(x, w) + y, w) != x || Slot(Times(x, w) + y, w) != y {
      NumbersDiffer(x, y, Group(Times(x, w) + y, w), Slot(Times(x, w) + y, w), w);
    }
  }

  lemma HitKeeps<X(!new)>(n: nat, inner: Machine<X>, inv: X -> bool, s: Wrapped<X>, way: nat)
    requires Keeps(inner, inv) && Good(s.parts, n, inv) && way < Times(inner.ways, n)
    ensures var s' := WrappedHit(inner)(s, way);
            Good(s'.parts, n, inv) && s'.dirty == s.dirty
  {
    GroupBound(way, n, inner.ways);
    var lru := Group(way, inner.ways);
    TouchKeepsOrder(s.parts.order, n, lru);
    assert KeepsAt(inner, inv, s.parts.inner[lru]);
  }

  lemma MissKeeps<X(!new)>(n: nat, inner: Machine<X>, inv: X -> bool, c: TwoLevel<X>)
    requires Keeps(inner, inv) && Good(c, n, inv) && n > 0
    ensures Good(Advance(c, inner.miss), n, inv) && PartsVictim(c, inner) < Times(inner.ways, n)
  {
    RecycleKeepsOrder(c.order, n);
    assert KeepsAt(inner, inv, c.inner[LeastRecent(c.order)]);
    NumberBound(LeastRecent(c.order), inner.victim(c.inner[LeastRecent(c.order)]), n, inner.ways);
  }

  lemma NumberBound(x: nat, y: nat, n: nat, w: nat)
    requires x < n && y < w
    ensures Times(x, w) + y < Times(w, n)
  {
    TimesCommutes(w, n);
    TimesMonotone(x + 1, n, w);
  }

  /** Wrapping a policy that keeps its invariant gives one that does. */
  lemma WrappedKeeps<X(!new)>(n: nat, inner: Machine<X>, inv: X -> bool)
    requires n > 0 && Keeps(inner, inv)
    ensures Keeps(WrappedMachine(n, inner), WrappedOf(n, inner, inv))
  {
    var m, good := WrappedMachine(n, inner), WrappedOf(n, inner, inv);
    forall s | good(s) ensures KeepsAt(m, good, s) {
      forall way: nat | way < m.ways ensures good(m.hit(s, way)) { HitKeeps(n, inner, inv, s, way); }
      if s.dirty < m.ways {
        HitKeeps(n, inner, inv, s.(dirty := s.dirty + 1), s.dirty);
      } else {
        MissKeeps(n, inner, inv, s.parts);
      }
    }
  }

  // ----- Cyclic eviction -----

  /** The misses of a filled composite are the steps of its two levels. */
  lemma {:induction false} FilledRun<X>(n: nat, inner: Machine<X>, s: Wrapped<X>, k: nat)
    requires s.dirty == Times(inner.ways, n)
    ensures Iterate(WrappedMiss(n, inner), s, k) == Wrapped(Iterate(Stepper(inner.miss), s.parts, k), s.dirty)
    decreases k
  {
    if k > 0 { FilledRun(n, inner, WrappedMiss(n, inner)(s), k - 1); }
  }

  /** The k-th victim of the two levels alone. */
  function FilledNth<X>(c: TwoLevel<X>, inner: Machine<X>, k: nat): nat
    decreases k
  {
    if k == 0 then PartsVictim(c, inner) else FilledNth(Advance(c, inner.miss), inner, k - 1)
  }

  lemma {:induction false} FilledVictim<X>(n: nat, inner: Machine<X>, s: Wrapped<X>, k: nat)
    requires s.dirty == Times(inner.ways, n)
    ensures NthVictim(WrappedMachine(n, inner), s, k) == FilledNth(s.parts, inner, k)
    decreases k
  {
    if k > 0 { FilledVictim(n, inner, WrappedMiss(n, inner)(s), k - 1); }
  }

  lemma {:induction false} FilledNthIsIterate<X>(c: TwoLevel<X>, inner: Machine<X>, k: nat)
    ensures FilledNth(c, inner, k) == PartsVictim(Iterate(Stepper(inner.miss), c, k), inner)
    decreases k
  {
    if k > 0 { FilledNthIsIterate(Advance(c, inner.miss), inner, k - 1); }
  }

  /** The k-th victim of round q: in the k-th least recent group, that group's q-th victim. */
  function RoundName<X>(c: TwoLevel<X>, inner: Machine<X>, q: nat, k: nat): nat
    requires Sound(c) && k < |c.order|
  {
    var outer := c.order[|c.order| - 1 - k];
    Times(outer, inner.ways) + NthVictim(inner, c.inner[outer], q)
  }

  lemma VictimInRound<X>(c: TwoLevel<X>, inner: Machine<X>, q: nat, k: nat, d: TwoLevel<X>)
    requires Sound(c) && k < |c.order|
    requires AboutToStep(TwoLevel(c.order, Aged(c.inner, inner.miss, q)), d, k)
    ensures PartsVictim(d, inner) == RoundName(c, inner, q, k)
  {}

  lemma RoundVictim<X>(c: TwoLevel<X>, inner: Machine<X>, q: nat, k: nat)
    requires Sound(c) && k < |c.order|
    ensures FilledNth(c, inner, Times(q, |c.order|) + k) == RoundName(c, inner, q, k)
  {
    FilledNthIsIterate(c, inner, Times(q, |c.order|) + k);
    InRound(c, inner.miss, q, k);
    VictimInRound(c, inner, q, k, Iterate(Stepper(inner.miss), c, Times(q, |c.order|) + k));
  }

  lemma NumbersDiffer(x: nat, y: nat, x': nat, y': nat, w: nat)
    requires y < w && y' < w && (x != x' || y != y')
    ensures Times(x, w) + y != Times(x', w) + y'
  {
    if x < x' { TimesMonotone(x + 1, x', w); }
    if x' < x { TimesMonotone(x' + 1, x, w); }
  }

  lemma RoundNamesDiffer<X>(c: TwoLevel<X>, inner: Machine<X>, q: nat, k: nat, q': nat, k': nat)
    requires Sound(c) && k < |c.order| && k' < |c.order|
    requires forall j :: 0 <= j < |c.inner| ==> EachOnce(inner, c.inner[j])
    requires q < inner.ways && q' < inner.ways && (q != q' || k != k')
    ensures RoundName(c, inner, q, k) != RoundName(c, inner, q', k')
  {
    var n := |c.order|;
    OrderDistinct(c.order, n);
    var x, x' := c.order[n - 1 - k], c.order[n - 1 - k'];
    assert EachOnce(inner, c.inner[x]) && EachOnce(inner, c.inner[x']);
    NumbersDiffer(x, NthVictim(inner, c.inner[x], q), x', NthVictim(inner, c.inner[x'], q'), inner.ways);
  }

  lemma {:induction false} FilledDiffers<X>(c: TwoLevel<X>, inner: Machine<X>, i: nat, j: nat)
    requires Sound(c) && i < j < Times(inner.ways, |c.order|)
    requires forall l :: 0 <= l < |c.inner| ==> EachOnce(inner, c.inner[l])
    ensures FilledNth(c, inner, i) != FilledNth(c, inner, j)
  {
    var q, k := InSomeRound(i, inner.ways, |c.order|);
    var q', k' := InSomeRound(j, inner.ways, |c.order|);
    RoundVictim(c, inner, q, k);
    RoundVictim(c, inner, q', k');
    RoundNamesDiffer(c, inner, q, k, q', k');
  }

  lemma FilledInRange<X>(c: TwoLevel<X>, inner: Machine<X>, i: nat)
    requires Sound(c) && i < Times(inner.ways, |c.order|)
    requires forall l :: 0 <= l < |c.inner| ==> EachOnce(inner, c.inner[l])
    ensures FilledNth(c, inner, i) < Times(inner.ways, |c.order|)
  {
    var n := |c.order|;
    var q, k := InSomeRound(i, inner.ways, n);
    RoundVictim(c, inner, q, k);
    var outer := c.order[n - 1 - k];
    VictimInRange(inner, c.inner[outer], q);
    NumberBound(outer, NthVictim(inner, c.inner[outer], q), n, inner.ways);
  }

  lemma VictimInRange<X>(inner: Machine<X>, x: X, q: nat)
    requires EachOnce(inner, x) && q < inner.ways
    ensures NthVictim(inner, x, q) < inner.ways
  {}

  lemma FilledRestores<X>(n: nat, inner: Machine<X>, s: Wrapped<X>)
    requires Sound(s.parts) && |s.parts.order| == n && s.dirty == Times(inner.ways, n)
    requires forall j :: 0 <= j < n ==> Cycles(inner, s.parts.inner[j])
    ensures Iterate(WrappedMiss(n, inner), s, Times(inner.ways, n)) == s
  {
    var c, w := s.parts, inner.ways;
    FilledRun(n, inner, s, Times(w, n));
    WholeRounds(c, inner.miss, w);
    forall j | 0 <= j < n ensures Aged(c.inner, inner.miss, w)[j] == c.inner[j] { assert Cycles(inner, c.inner[j]); }
    assert Aged(c.inner, inner.miss, w) == c.inner;
  }

  lemma FilledEachOnce<X>(n: nat, inner: Machine<X>, s: Wrapped<X>)
    requires Sound(s.parts) && |s.parts.order| == n && s.dirty == Times(inner.ways, n)
    requires forall j :: 0 <= j < n ==> EachOnce(inner, s.parts.inner[j])
    ensures EachOnce(WrappedMachine(n, inner), s)
  {
    var m, victim := WrappedMachine(n, inner), (k: nat) => FilledNth(s.parts, inner, k);
    forall i: nat | i < m.ways ensures NthVictim(m, s, i) == victim(i) < m.ways {
      FilledVictim(n, inner, s, i);
      FilledInRange(s.parts, inner, i);
    }
    forall i: nat, j: nat | i < j < m.ways ensures victim(i) != victim(j) {
      FilledDiffers(s.parts, inner, i, j);
    }
    EachOnceFrom(m, s, victim);
  }

  /** Once filled, the composite replaces each way once per cycle if the nested policy does. */
  lemma WrappedCycles<X>(n: nat, inner: Machine<X>, s: Wrapped<X>)
    requires Sound(s.parts) && |s.parts.order| == n && s.dirty == Times(inner.ways, n)
    requires forall j :: 0 <= j < n ==> Cycles(inner, s.parts.inner[j])
    ensures Cycles(WrappedMachine(n, inner), s)
  {
    FilledRestores(n, inner, s);
    FilledEachOnce(n, inner, s);
    assert Cycles(inner, s.parts.inner[0]);
    NumberBound(0, 0, n, inner.ways);
  }

  /** While the composite fills, the misses take the ways in order. */
  lemma LevelNext<X>(n: nat, inner: Machine<X>, s: Wrapped<X>)
    ensures WrappedMiss(n, inner)(s).dirty == if s.dirty < Times(inner.ways, n) then s.dirty + 1 else s.dirty
  {}

  lemma LevelAfter<X(!new)>(n: nat, inner: Machine<X>, s: Wrapped<X>, k: nat)
    requires s.dirty <= Times(inner.ways, n)
    ensures var d := s.dirty + k;
            Iterate(WrappedMiss(n, inner), s, k).dirty == if d < Times(inner.ways, n) then d else Times(inner.ways, n)
  {
    var miss, top := WrappedMiss(n, inner), Times(inner.ways, n);
    forall q ensures CountsAt(miss, Level(), top, q) { LevelNext(n, inner, q); }
    CountsUp(miss, Level(), top, s, k);
  }

  lemma FreshFillsEachOnce<X(!new)>(n: nat, inner: Machine<X>, s: Wrapped<X>)
    requires s.dirty == 0
    ensures EachOnce(WrappedMachine(n, inner), s)
  {
    var m := WrappedMachine(n, inner);
    forall i: nat | i < m.ways ensures NthVictim(m, s, i) == i {
      LevelAfter(n, inner, s, i);
    }
  }
}
