/**
 Two filled states of LRU over a nested policy behave alike when their ways are renamed: groups
 by their place in the outer order, ways within a group as the nested policy allows.
 */
module WrappedRenaming {
  import opened Machines
  import opened Orders
  import opened LruWrapped
  import opened CacheSets
  import opened StartIndependence

  /** A renaming of the nested ways of one group, with its inverse and the states that it relates. */
  datatype Match<!X> = Match(related: (X, X) -> bool, sigma: nat -> nat, tau: nat -> nat)

  ghost predicate Matches<X(!new)>(inner: Machine<X>, r: Match<X>) {
    Simulates(inner, r.related, r.sigma) && Bijection(inner.ways, r.sigma, r.tau)
  }

  /** The groups of one state correspond to those of the other, and are matched one by one. */
  datatype Pairing<!X> = Pairing(groups: nat -> nat, back: nat -> nat, matches: seq<Match<X>>)

  ghost predicate Pairs<X(!new)>(n: nat, inner: Machine<X>, r: Pairing<X>) {
    && Bijection(n, r.groups, r.back) && |r.matches| == n
    && forall g :: 0 <= g < n ==> Matches(inner, r.matches[g])
  }

  // ----- The renaming of the ways -----

  function NewWay<X>(w: nat, r: Pairing<X>, g: nat, v: nat): nat {
    if g < |r.matches| then Times(r.groups(g), w) + r.matches[g].sigma(v) else 0
  }

  function OldWay<X>(w: nat, r: Pairing<X>, g: nat, v: nat): nat {
    if g < |r.matches| then Times(g, w) + r.matches[g].tau(v) else 0
  }

  function WayOf<X>(w: nat, r: Pairing<X>): nat -> nat {
    (way: nat) => NewWay(w, r, Group(way, w), Slot(way, w))
  }

  function WayBack<X>(w: nat, r: Pairing<X>): nat -> nat {
    (way: nat) => OldWay(w, r, r.back(Group(way, w)), Slot(way, w))
  }

  lemma GroupThere<X(!new)>(n: nat, inner: Machine<X>, r: Pairing<X>, g: nat)
    requires Pairs(n, inner, r) && g < n
    ensures r.groups(g) < n && r.back(r.groups(g)) == g
    ensures r.back(g) < n && r.groups(r.back(g)) == g
  {}

  lemma SlotThere<X(!new)>(n: nat, inner: Machine<X>, r: Pairing<X>, g: nat, v: nat)
    requires Pairs(n, inner, r) && g < n && v < inner.ways
    ensures var k := r.matches[g];
            && k.sigma(v) < inner.ways && k.tau(k.sigma(v)) == v
            && k.tau(v) < inner.ways && k.sigma(k.tau(v)) == v
  {
    assert Matches(inner, r.matches[g]);
  }

  lemma SplitWay(way: nat, n: nat, w: nat)
    requires way < Times(w, n)
    ensures Group(way, w) < n && Slot(way, w) < w && way == Times(Group(way, w), w) + Slot(way, w)
  {
    GroupBound(way, n, w);
    GroupSplits(way, w);
  }

  lemma JoinWay(g: nat, v: nat, n: nat, w: nat) returns (way: nat)
    requires g < n && v < w
    ensures way == Times(g, w) + v < Times(w, n) && Group(way, w) == g && Slot(way, w) == v
  {
    GroupOfNumber(g, v, w);
    NumberBound(g, v, n, w);
    way := Times(g, w) + v;
  }

  /** The renamed way, by its group and its nested way. */
  lemma WayOfIs<X>(w: nat, r: Pairing<X>, way: nat, way': nat, g: nat, v: nat)
    requires g < |r.matches| && Group(way, w) == g && Slot(way, w) == v
    requires way' == Times(r.groups(g), w) + r.matches[g].sigma(v)
    ensures WayOf(w, r)(way) == way'
  {}

  lemma WayBackIs<X>(w: nat, r: Pairing<X>, way: nat, way': nat, g: nat, v: nat)
    requires g < |r.matches| && r.back(Group(way, w)) == g && Slot(way, w) == v
    requires way' == Times(g, w) + r.matches[g].tau(v)
    ensures WayBack(w, r)(way) == way'
  {}

  lemma WayOfNumber<X(!new)>(n: nat, inner: Machine<X>, r: Pairing<X>, g: nat, v: nat, way: nat)
    requires Pairs(n, inner, r) && g < n && v < inner.ways && way == Times(g, inner.ways) + v
    ensures r.groups(g) < n && r.matches[g].sigma(v) < inner.ways
    ensures WayOf(inner.ways, r)(way) == Times(r.groups(g), inner.ways) + r.matches[g].sigma(v)
  {
    GroupThere(n, inner, r, g);
    SlotThere(n, inner, r, g, v);
    GroupOfNumber(g, v, inner.ways);
    WayOfIs(inner.ways, r, way, Times(r.groups(g), inner.ways) + r.matches[g].sigma(v), g, v);
  }

  lemma WayThere<X(!new)>(n: nat, inner: Machine<X>, r: Pairing<X>, way: nat)
    requires Pairs(n, inner, r) && way < Times(inner.ways, n)
    ensures Group(way, inner.ways) < n
    ensures var way' := WayOf(inner.ways, r)(way);
            && way' < Times(inner.ways, n) && WayBack(inner.ways, r)(way') == way
            && Group(way', inner.ways) == r.groups(Group(way, inner.ways)) < n
            && Slot(way', inner.ways) == r.matches[Group(way, inner.ways)].sigma(Slot(way, inner.ways)) < inner.ways
  {
    var w := inner.ways;
    SplitWay(way, n, w);
    var g, v := Group(way, w), Slot(way, w);
    GroupThere(n, inner, r, g);
    SlotThere(n, inner, r, g, v);
    var way' := JoinWay(r.groups(g), r.matches[g].sigma(v), n, w);
    WayOfIs(w, r, way, way', g, v);
    WayBackIs(w, r, way', way, g, r.matches[g].sigma(v));
  }

  lemma WayThereAndBack<X(!new)>(n: nat, inner: Machine<X>, r: Pairing<X>, way: nat)
    requires Pairs(n, inner, r) && way < Times(inner.ways, n)
    ensures WayBack(inner.ways, r)(way) < Times(inner.ways, n)
    ensures WayOf(inner.ways, r)(WayBack(inner.ways, r)(way)) == way
  {
    var w := inner.ways;
    SplitWay(way, n, w);
    var g, v := r.back(Group(way, w)), Slot(way, w);
    GroupThere(n, inner, r, Group(way, w));
    SlotThere(n, inner, r, g, v);
    var way' := JoinWay(g, r.matches[g].tau(v), n, w);
    WayBackIs(w, r, way, way', g, v);
    WayOfIs(w, r, way', way, g, r.matches[g].tau(v));
  }

  lemma WaysBijective<X(!new)>(n: nat, inner: Machine<X>, r: Pairing<X>)
    requires Pairs(n, inner, r)
    ensures Bijection(Times(inner.ways, n), WayOf(inner.ways, r), WayBack(inner.ways, r))
  {
    var N, sigma, tau := Times(inner.ways, n), WayOf(inner.ways, r), WayBack(inner.ways, r);
    forall way: nat | way < N ensures sigma(way) < N && tau(sigma(way)) == way { WayThere(n, inner, r, way); }
    forall way: nat | way < N ensures tau(way) < N && sigma(tau(way)) == way { WayThereAndBack(n, inner, r, way); }
  }

  // ----- Related states -----

  ghost predicate RelatedParts<X>(n: nat, inv: X -> bool, r: Pairing<X>, c: TwoLevel<X>, d: TwoLevel<X>) {
    && Good(c, n, inv) && Good(d, n, inv) && |r.matches| == n
    && PlaceByPlace(n, r.groups)(c.order, d.order)
    && forall g: nat {:trigger r.groups(g)} ::
        g < n ==> r.groups(g) < n && r.matches[g].related(c.inner[g], d.inner[r.groups(g)])
  }

  ghost function RelatedStates<X>(
    n: nat, inner: Machine<X>, inv: X -> bool, r: Pairing<X>): (Wrapped<X>, Wrapped<X>) -> bool
  {
    (s: Wrapped<X>, u: Wrapped<X>) =>
      s.dirty == u.dirty == Times(inner.ways, n) && RelatedParts(n, inv, r, s.parts, u.parts)
  }

  /** One group of each state changes, and the changed ones are related. */
  lemma RelatedUpdate<X(!new)>(
    n: nat, inner: Machine<X>, inv: X -> bool, r: Pairing<X>, c: TwoLevel<X>, d: TwoLevel<X>,
    o: seq<nat>, o': seq<nat>, g: nat, x: X, y: X)
    requires Pairs(n, inner, r) && RelatedParts(n, inv, r, c, d) && g < n && r.groups(g) < n
    requires PlaceByPlace(n, r.groups)(o, o') && inv(x) && inv(y) && r.matches[g].related(x, y)
    ensures RelatedParts(n, inv, r, TwoLevel(o, c.inner[g := x]), TwoLevel(o', d.inner[r.groups(g) := y]))
  {
    forall k: nat | k < n && k != g ensures r.groups(k) != r.groups(g) {
      assert r.back(r.groups(k)) == k && r.back(r.groups(g)) == g;
    }
  }

  lemma RelatedLast<X(!new)>(n: nat, inner: Machine<X>, inv: X -> bool, r: Pairing<X>, c: TwoLevel<X>, d: TwoLevel<X>)
    requires n > 0 && Keeps(inner, inv) && Pairs(n, inner, r) && RelatedParts(n, inv, r, c, d)
    ensures var g := LeastRecent(c.order);
            && g < n && LeastRecent(d.order) == r.groups(g) < n
            && r.matches[g].related(c.inner[g], d.inner[r.groups(g)])
            && SimulatesAt(inner, r.matches[g].related, r.matches[g].sigma, c.inner[g], d.inner[r.groups(g)])
            && inv(inner.miss(c.inner[g])) && inv(inner.miss(d.inner[r.groups(g)]))
            && inner.victim(c.inner[g]) < inner.ways
  {
    var g := LeastRecent(c.order);
    assert Matches(inner, r.matches[g]);
    var x, y := c.inner[g], d.inner[r.groups(g)];
    assert KeepsAt(inner, inv, x) && KeepsAt(inner, inv, y);
  }

  lemma RelatedMiss<X(!new)>(n: nat, inner: Machine<X>, inv: X -> bool, r: Pairing<X>, c: TwoLevel<X>, d: TwoLevel<X>)
    requires n > 0 && Keeps(inner, inv) && Pairs(n, inner, r) && RelatedParts(n, inv, r, c, d)
    ensures RelatedParts(n, inv, r, Advance(c, inner.miss), Advance(d, inner.miss))
  {
    RelatedLast(n, inner, inv, r, c, d);
    var g := LeastRecent(c.order);
    RecyclePlaces(c.order, d.order, n, r.groups);
    RelatedUpdate(n, inner, inv, r, c, d, Recycle(c.order), Recycle(d.order), g,
                  inner.miss(c.inner[g]), inner.miss(d.inner[r.groups(g)]));
  }

  lemma PartsVictimIs<X>(c: TwoLevel<X>, inner: Machine<X>, g: nat, v: nat)
    requires LeastRecent(c.order) == g < |c.inner| && inner.victim(c.inner[g]) == v
    ensures PartsVictim(c, inner) == Times(g, inner.ways) + v
  {}

  /** Both victims, by group and nested way. */
  lemma VictimParts<X(!new)>(
    n: nat, inner: Machine<X>, inv: X -> bool, r: Pairing<X>, c: TwoLevel<X>, d: TwoLevel<X>) returns (g: nat, v: nat)
    requires n > 0 && Keeps(inner, inv) && Pairs(n, inner, r) && RelatedParts(n, inv, r, c, d)
    ensures g < n && v < inner.ways && PartsVictim(c, inner) == Times(g, inner.ways) + v
    ensures PartsVictim(d, inner) == Times(r.groups(g), inner.ways) + r.matches[g].sigma(v)
  {
    RelatedLast(n, inner, inv, r, c, d);
    g := LeastRecent(c.order);
    v := inner.victim(c.inner[g]);
    PartsVictimIs(c, inner, g, v);
    PartsVictimIs(d, inner, r.groups(g), r.matches[g].sigma(v));
  }

  lemma RelatedVictims<X(!new)>(
    n: nat, inner: Machine<X>, inv: X -> bool, r: Pairing<X>, c: TwoLevel<X>, d: TwoLevel<X>)
    requires n > 0 && Keeps(inner, inv) && Pairs(n, inner, r) && RelatedParts(n, inv, r, c, d)
    ensures PartsVictim(c, inner) < Times(inner.ways, n)
    ensures PartsVictim(d, inner) == WayOf(inner.ways, r)(PartsVictim(c, inner))
  {
    var g, v := VictimParts(n, inner, inv, r, c, d);
    WayOfNumber(n, inner, r, g, v, PartsVictim(c, inner));
    NumberBound(g, v, n, inner.ways);
  }

  /** The nested states of a group, hit at a way and at its renaming. */
  lemma RelatedNested<X(!new)>(
    n: nat, inner: Machine<X>, inv: X -> bool, r: Pairing<X>, c: TwoLevel<X>, d: TwoLevel<X>, g: nat, v: nat)
    requires Keeps(inner, inv) && Pairs(n, inner, r) && RelatedParts(n, inv, r, c, d) && g < n && v < inner.ways
    ensures r.groups(g) < n
    ensures var x, y := inner.hit(c.inner[g], v), inner.hit(d.inner[r.groups(g)], r.matches[g].sigma(v));
            inv(x) && inv(y) && r.matches[g].related(x, y)
  {
    assert Matches(inner, r.matches[g]);
    var x, y := c.inner[g], d.inner[r.groups(g)];
    assert SimulatesAt(inner, r.matches[g].related, r.matches[g].sigma, x, y);
    assert KeepsAt(inner, inv, x) && KeepsAt(inner, inv, y);
  }

  lemma RelatedTouch<X(!new)>(
    n: nat, inner: Machine<X>, inv: X -> bool, r: Pairing<X>, c: TwoLevel<X>, d: TwoLevel<X>, g: nat, v: nat)
    requires Keeps(inner, inv) && Pairs(n, inner, r) && RelatedParts(n, inv, r, c, d) && g < n && v < inner.ways
    ensures r.groups(g) < n
    ensures RelatedParts(n, inv, r,
                         TwoLevel(Touch(c.order, g), c.inner[g := inner.hit(c.inner[g], v)]),
                         TwoLevel(Touch(d.order, r.groups(g)),
                                  d.inner[r.groups(g) := inner.hit(d.inner[r.groups(g)], r.matches[g].sigma(v))]))
  {
    RelatedNested(n, inner, inv, r, c, d, g, v);
    TouchPlaces(c.order, d.order, n, r.groups, g);
    RelatedUpdate(n, inner, inv, r, c, d, Touch(c.order, g), Touch(d.order, r.groups(g)), g,
                  inner.hit(c.inner[g], v), inner.hit(d.inner[r.groups(g)], r.matches[g].sigma(v)));
  }

  lemma {:induction false} RelatedHit<X(!new)>(
    n: nat, inner: Machine<X>, inv: X -> bool, r: Pairing<X>, s: Wrapped<X>, u: Wrapped<X>, way: nat)
    requires Keeps(inner, inv) && Pairs(n, inner, r) && RelatedStates(n, inner, inv, r)(s, u)
    requires way < Times(inner.ways, n)
    ensures RelatedStates(n, inner, inv, r)(WrappedHit(inner)(s, way), WrappedHit(inner)(u, WayOf(inner.ways, r)(way)))
  {
    WayThere(n, inner, r, way);
    GroupBound(way, n, inner.ways);
    RelatedTouch(n, inner, inv, r, s.parts, u.parts, Group(way, inner.ways), Slot(way, inner.ways));
  }

  lemma FilledSimulates<X(!new)>(n: nat, inner: Machine<X>, inv: X -> bool, r: Pairing<X>)
    requires n > 0 && Keeps(inner, inv) && Pairs(n, inner, r)
    ensures Simulates(WrappedMachine(n, inner), RelatedStates(n, inner, inv, r), WayOf(inner.ways, r))
  {
    var m, R, sigma := WrappedMachine(n, inner), RelatedStates(n, inner, inv, r), WayOf(inner.ways, r);
    forall s, u | R(s, u) ensures SimulatesAt(m, R, sigma, s, u) {
      RelatedMiss(n, inner, inv, r, s.parts, u.parts);
      RelatedVictims(n, inner, inv, r, s.parts, u.parts);
      forall way: nat | way < m.ways ensures R(m.hit(s, way), m.hit(u, sigma(way))) {
        RelatedHit(n, inner, inv, r, s, u, way);
      }
    }
  }

  /** Filled states whose nested states can be matched hit on every trace equally often. */
  lemma FilledStartIndependent<X(!new)>(
    n: nat, inner: Machine<X>, inv: X -> bool, r: Pairing<X>, s: Wrapped<X>, u: Wrapped<X>, trace: seq<nat>)
    requires n > 0 && Keeps(inner, inv) && Pairs(n, inner, r) && RelatedStates(n, inner, inv, r)(s, u)
    ensures var m := WrappedMachine(n, inner);
            HitCount(m, Fresh(m, s), trace) == HitCount(m, Fresh(m, u), trace)
  {
    FilledSimulates(n, inner, inv, r);
    WaysBijective(n, inner, r);
    RelatedStart(WrappedMachine(n, inner), RelatedStates(n, inner, inv, r),
                 WayOf(inner.ways, r), WayBack(inner.ways, r), s, u, trace);
  }
}
