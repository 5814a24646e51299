/**
 LRU over tree-PLRU under the test for cyclic eviction: the exact fill levels from which the next
 misses take each way once.
 */
module FillCycles {
  import opened Words
  import opened Machines
  import opened Orders
  import opened Policies
  import opened LruWrapped
  import opened LostLines
  import opened LruPlruStarts
  import opened LinearFills
  import T = PlruTrees

  // ----- Any policy that fills way after way -----

  /** The ways from d on have their places in the cycle of the filled state f. */
  ghost predicate Placed<S>(m: Machine<S>, f: S, place: nat -> nat, d: nat) {
    forall x: nat :: d <= x < m.ways ==> PlacedAt(m, f, place, x)
  }

  ghost predicate PlacedAt<S>(m: Machine<S>, f: S, place: nat -> nat, x: nat) {
    OnlyAt(m, f, x, place(x))
  }

  lemma VictimsOfFill<S(!new)>(m: Machine<S>, inv: S -> bool, level: S -> nat, s: S, f: S, i: nat)
    requires Keeps(m, inv) && FillsInOrder(m, inv, level) && inv(s) && level(s) <= m.ways && i < m.ways
    requires f == Iterate(m.miss, s, m.ways - level(s))
    ensures var rest := m.ways - level(s);
            NthVictim(m, s, i) == if i < rest then level(s) + i else NthVictim(m, f, i - rest)
  {
    var rest := m.ways - level(s);
    if i < rest { FillVictims(m, inv, level, s, i); } else { NthVictimLater(m, s, rest, i - rest); }
  }

  /** Each way is taken once exactly if no way that is filled now comes up again too early. */
  lemma EachOnceByPlaces<S(!new)>(m: Machine<S>, inv: S -> bool, level: S -> nat, s: S, f: S, place: nat -> nat)
    requires Keeps(m, inv) && FillsInOrder(m, inv, level) && inv(s) && level(s) <= m.ways
    requires f == Iterate(m.miss, s, m.ways - level(s)) && EachOnce(m, f) && Placed(m, f, place, level(s))
    ensures EachOnce(m, s) <==> forall x: nat :: level(s) <= x < m.ways ==> place(x) >= level(s)
  {
    var d, rest := level(s), m.ways - level(s);
    forall i: nat | i < m.ways
      ensures NthVictim(m, s, i) == (if i < rest then d + i else NthVictim(m, f, i - rest))
      ensures NthVictim(m, s, i) < m.ways
    {
      VictimsOfFill(m, inv, level, s, f, i);
    }
    if x: nat :| d <= x < m.ways && place(x) < d {
      assert PlacedAt(m, f, place, x);
      assert NthVictim(m, s, x - d) == x && NthVictim(m, s, rest + place(x)) == x;
    } else {
      forall i: nat, j: nat | i < j < m.ways ensures NthVictim(m, s, i) != NthVictim(m, s, j) {
        if i < rest <= j { assert PlacedAt(m, f, place, d + i); }
      }
    }
  }

  /** From every level, the way of that level has its place; filled states take each way once. */
  ghost predicate PlacesWays<S(!new)>(m: Machine<S>, inv: S -> bool, level: S -> nat, place: nat -> nat) {
    forall s {:trigger PlacesWayAt(m, level, place, s)} ::
      inv(s) && level(s) <= m.ways ==> PlacesWayAt(m, level, place, s)
  }

  ghost predicate PlacesWayAt<S>(m: Machine<S>, level: S -> nat, place: nat -> nat, s: S)
    requires level(s) <= m.ways
  {
    var f := Iterate(m.miss, s, m.ways - level(s));
    if level(s) < m.ways then PlacedAt(m, f, place, level(s)) else EachOnce(m, s)
  }

  lemma PlaceOfLater<S(!new)>(m: Machine<S>, inv: S -> bool, level: S -> nat, place: nat -> nat, s: S, x: nat)
    requires Keeps(m, inv) && FillsInOrder(m, inv, level) && PlacesWays(m, inv, level, place)
    requires inv(s) && level(s) <= x < m.ways
    ensures PlacedAt(m, Iterate(m.miss, s, m.ways - level(s)), place, x)
  {
    var k := x - level(s);
    FillVictims(m, inv, level, s, k);
    IterateAdds(m.miss, s, k, m.ways - x);
    assert PlacesWayAt(m, level, place, Iterate(m.miss, s, k));
  }

  lemma FillingEachOnceOf<S(!new)>(m: Machine<S>, inv: S -> bool, level: S -> nat, place: nat -> nat, s: S)
    requires Keeps(m, inv) && FillsInOrder(m, inv, level) && PlacesWays(m, inv, level, place)
    requires inv(s) && level(s) <= m.ways
    ensures EachOnce(m, s) <==> forall x: nat :: level(s) <= x < m.ways ==> place(x) >= level(s)
  {
    var f := Iterate(m.miss, s, m.ways - level(s));
    FillVictims(m, inv, level, s, m.ways - level(s));
    assert PlacesWayAt(m, level, place, f);
    forall x: nat | level(s) <= x < m.ways ensures PlacedAt(m, f, place, x) {
      PlaceOfLater(m, inv, level, place, s, x);
    }
    EachOnceByPlaces(m, inv, level, s, f, place);
  }

  // ----- LRU over a nested policy with fixed turns -----

  function PlaceWith(n: nat, w: nat, turn: nat -> nat): nat -> nat { (x: nat) => Place(n, w, turn, x) }

  lemma PlaceFromLevel<X(!new)>(n: nat, inner: Machine<X>, inv: X -> bool, turn: nat -> nat, s: Wrapped<X>)
    requires Keeps(inner, inv) && WrappedOf(n, inner, inv)(s) && s.dirty < Times(inner.ways, n)
    requires forall y :: inv(y) ==> EachOnce(inner, y)
    requires FixedTurns(inner, inv, turn)
    ensures var m := WrappedMachine(n, inner);
            PlacedAt(m, Iterate(m.miss, s, m.ways - s.dirty), PlaceWith(n, inner.ways, turn), s.dirty)
  {
    FillingPlace(n, inner, inv, turn, s);
  }

  lemma WrappedPlacesAt<X(!new)>(n: nat, inner: Machine<X>, inv: X -> bool, turn: nat -> nat, s: Wrapped<X>)
    requires n > 0 && Keeps(inner, inv) && WrappedOf(n, inner, inv)(s)
    requires forall y :: inv(y) ==> EachOnce(inner, y)
    requires FixedTurns(inner, inv, turn)
    ensures PlacesWayAt(WrappedMachine(n, inner), Level(), PlaceWith(n, inner.ways, turn), s)
  {
    if s.dirty < Times(inner.ways, n) { PlaceFromLevel(n, inner, inv, turn, s); } else { FilledEachOnce(n, inner, s); }
  }

  lemma FillingEachOnce<X(!new)>(
    n: nat, inner: Machine<X>, inv: X -> bool, turn: nat -> nat, place: nat -> nat, s: Wrapped<X>)
    requires n > 0 && Keeps(inner, inv) && WrappedOf(n, inner, inv)(s) && place == PlaceWith(n, inner.ways, turn)
    requires forall y :: inv(y) ==> EachOnce(inner, y)
    requires FixedTurns(inner, inv, turn)
    ensures EachOnce(WrappedMachine(n, inner), s)
       <==> forall x: nat :: s.dirty <= x < Times(inner.ways, n) ==> place(x) >= s.dirty
  {
    var m, good := WrappedMachine(n, inner), WrappedOf(n, inner, inv);
    WrappedKeeps(n, inner, inv);
    WrappedFillsInOrder(n, inner, inv);
    forall q | good(q) && Level()(q) <= m.ways ensures PlacesWayAt(m, Level(), place, q) {
      WrappedPlacesAt(n, inner, inv, turn, q);
    }
    FillingEachOnceOf(m, good, Level(), place, s);
  }

  // ----- Numbers read backwards -----

  lemma ReversedStep(h: nat, v: nat)
    requires h > 0 && v < Pow2(h)
    ensures var half := Pow2(h - 1);
            Reversed(h)(v) == if v < half then 2 * Reversed(h - 1)(v) else 2 * Reversed(h - 1)(v - half) + 1
  {
    BitsFront(v, h);
  }

  lemma {:induction false} ReversedTop(h: nat)
    ensures Reversed(h)(Pow2(h) - 1) == Pow2(h) - 1
  {
    if h > 0 {
      ReversedStep(h, Pow2(h) - 1);
      ReversedTop(h - 1);
    }
  }

  lemma {:induction false} ReversedBelowTop(h: nat)
    requires h > 0
    ensures Pow2(h) >= 2 && Reversed(h)(Pow2(h) - 2) == Pow2(h - 1) - 1
  {
    ReversedStep(h, Pow2(h) - 2);
    if h > 1 { ReversedBelowTop(h - 1); } else { ReversedZero(0); }
  }

  lemma ReversedHalf(h: nat)
    requires h > 0
    ensures Reversed(h)(Pow2(h - 1)) == 1
  {
    ReversedStep(h, Pow2(h - 1));
    ReversedZero(h - 1);
  }

  lemma {:induction false} ReversedPositive(h: nat, v: nat)
    requires 0 < v < Pow2(h)
    ensures Reversed(h)(v) > 0
  {
    ReversedStep(h, v);
    if v < Pow2(h - 1) { ReversedPositive(h - 1, v); }
  }

  // ----- The fill levels -----

  function WayPlace(n: nat, h: nat): nat -> nat { PlaceWith(n, Pow2(h), Reversed(h)) }

  lemma PlaceOfNumber(n: nat, h: nat, g: nat, v: nat)
    requires v < Pow2(h)
    ensures WayPlace(n, h)(Times(g, Pow2(h)) + v) == Times(Reversed(h)(v), n) + g
  {
    GroupOfNumber(g, v, Pow2(h));
  }

  /** Below the middle: the first way of a group, or the middle way of the only one, comes up early. */
  lemma EarlyWay(n: nat, h: nat, d: nat) returns (x: nat)
    requires n > 0 && h > 0 && 2 <= d && 2 * d <= Times(Pow2(h), n)
    ensures d <= x < Times(Pow2(h), n) && WayPlace(n, h)(x) < d
  {
    assert Pow2(h) == 2 * Pow2(h - 1);
    if n == 1 {
      x := Pow2(h - 1);
      ReversedHalf(h);
      PlaceOfNumber(1, h, 0, x);
      TimesCommutes(Pow2(h), 1);
      assert Times(1, Pow2(h)) == Pow2(h) && Times(0, Pow2(h)) == 0 && Times(1, 1) == 1;
    } else {
      var p: nat := if d <= n then d - 1 else n - 1;
      x := Times(p, Pow2(h));
      ReversedZero(h);
      PlaceOfNumber(n, h, p, 0);
      FirstWayIn(n, Pow2(h), d, p);
    }
  }

  lemma FirstWayIn(n: nat, w: nat, d: nat, p: nat)
    requires n > 1 && w >= 2 && 2 <= d && 2 * d <= Times(w, n) && p == if d <= n then d - 1 else n - 1
    ensures d <= Times(p, w) < Times(w, n) && p < d && Times(0, n) == 0
  {
    TimesCommutes(w, n);
    TimesMonotone(p + 1, n, w);
    if d <= n {
      TimesAtLeastTwo(p, w);
    } else {
      TimesMonotone(1, n - 1, w);
      assert Times(1, w) == w && Times(n, w) == Times(n - 1, w) + w;
    }
  }

  lemma {:induction false} TimesAtLeastTwo(p: nat, w: nat)
    requires w >= 2
    ensures Times(p, w) >= 2 * p
  {
    if p > 0 { TimesAtLeastTwo(p - 1, w); }
  }

  /** The number of ways, group by group and turn by turn. */
  lemma WaysSplit(w: nat, half: nat, n: nat)
    requires n > 0 && w == 2 * half && half > 0
    ensures Times(w, n) == Times(n - 1, w) + w == 2 * (Times(half - 1, n) + n) == Times(w - 1, n) + n
  {
    TimesCommutes(w, n);
    TimesAdds(half, half, n);
    assert Times(n, w) == Times(n - 1, w) + w && Times(half, n) == Times(half - 1, n) + n;
  }

  /** From the middle on, the last way but one comes up just before the middle. */
  lemma {:induction false} LateWay(n: nat, h: nat)
    requires n > 0 && h > 0
    ensures var N := Times(Pow2(h), n);
            N >= 2 && 2 * (WayPlace(n, h)(N - 2) + 1) == N
  {
    ReversedBelowTop(h);
    PlaceOfNumber(n, h, n - 1, Pow2(h) - 2);
    LateOf(WayPlace(n, h), n, Pow2(h), Pow2(h - 1));
  }

  lemma LateOf(place: nat -> nat, n: nat, w: nat, half: nat)
    requires n > 0 && w == 2 * half && half > 0
    requires place(Times(n - 1, w) + (w - 2)) == Times(half - 1, n) + (n - 1)
    ensures Times(w, n) >= 2 && 2 * (place(Times(w, n) - 2) + 1) == Times(w, n)
  {
    WaysSplit(w, half, n);
  }

  lemma {:induction false} LastPlace(n: nat, h: nat)
    requires n > 0 && h > 0
    ensures var N := Times(Pow2(h), n);
            N > 0 && WayPlace(n, h)(N - 1) == N - 1
  {
    ReversedTop(h);
    PlaceOfNumber(n, h, n - 1, Pow2(h) - 1);
    LastOf(WayPlace(n, h), n, Pow2(h), Pow2(h - 1));
  }

  lemma LastOf(place: nat -> nat, n: nat, w: nat, half: nat)
    requires n > 0 && w == 2 * half && half > 0
    requires place(Times(n - 1, w) + (w - 1)) == Times(w - 1, n) + (n - 1)
    ensures Times(w, n) > 0 && place(Times(w, n) - 1) == Times(w, n) - 1
  {
    WaysSplit(w, half, n);
  }

  lemma OnlyFirstIsFirst(n: nat, h: nat, x: nat)
    requires n > 0 && 0 < x < Times(Pow2(h), n)
    ensures WayPlace(n, h)(x) > 0
  {
    var w := Pow2(h);
    var g, v := Group(x, w), Slot(x, w);
    GroupBound(x, n, w);
    GroupSplits(x, w);
    PlaceOfNumber(n, h, g, v);
    if g == 0 {
      ReversedPositive(h, v);
      TimesMonotone(1, Reversed(h)(v), n);
    }
  }

  lemma LevelsIff(n: nat, h: nat, d: nat)
    requires n > 0 && h > 0 && d <= Times(Pow2(h), n)
    ensures (forall x: nat :: d <= x < Times(Pow2(h), n) ==> WayPlace(n, h)(x) >= d)
       <==> d <= 1 || d + 1 >= Times(Pow2(h), n)
  {
    var N, place := Times(Pow2(h), n), WayPlace(n, h);
    if d <= 1 || d + 1 >= N {
      LastPlace(n, h);
      forall x: nat | d <= x < N ensures place(x) >= d {
        if 0 < x { OnlyFirstIsFirst(n, h, x); }
      }
    } else if 2 * d <= N {
      var x := EarlyWay(n, h, d);
    } else {
      LateWay(n, h);
    }
  }

  /**
   With two nested ways or more, LRU over tree-PLRU takes each way once exactly if at most one way was
   filled, or at most one is not, whatever its order and its trees.
   */
  lemma {:induction false} LruPlruEachOnceIff(n: nat, h: nat, s: Wrapped<T.Tree>)
    requires n > 0 && h > 0 && LruPlruOf(n, h)(s)
    ensures EachOnce(LruPlruMachine(n, h), s) <==> s.dirty <= 1 || s.dirty + 1 >= Times(Pow2(h), n)
  {
    var inner, inv := PlruMachine(h), PerfectOf(h);
    PlruKeeps(h);
    forall t | inv(t) ensures EachOnce(inner, t) { PlruCycles(h, t); }
    forall t, v: nat | inv(t) && v < inner.ways ensures TurnsAt(inner, t, v, Reversed(h)(v)) { TurnNumber(h, t, v); }
    FillingEachOnce(n, inner, inv, Reversed(h), WayPlace(n, h), s);
    LevelsIff(n, h, s.dirty);
  }
}
