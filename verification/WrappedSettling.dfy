/**
 While LRU over a nested policy fills way after way, what it was started with is forgotten: two
 states that have filled nothing yet behave alike for ever.
 */
module WrappedSettling {
  import opened Machines
  import opened Orders
  import opened LruWrapped
  import opened CacheSets

  // ----- The outer order -----

  /** The orders agree in front. */
  ghost predicate SameFront(o: seq<nat>, o': seq<nat>, k: nat) {
    k <= |o| == |o'| && forall j :: 0 <= j < k ==> o[j] == o'[j]
  }

  /** A group is in front in one order exactly if it is so in the other. */
  lemma SameSpot(o: seq<nat>, o': seq<nat>, n: nat, k: nat, g: nat)
    requires IsOrder(o, n) && IsOrder(o', n) && SameFront(o, o', k) && g < n
    ensures Position(o, g) < k <==> Position(o', g) < k
    ensures Position(o, g) < k ==> Position(o', g) == Position(o, g)
  {
    var i, i' := Position(o, g), Position(o', g);
    if i < k { PositionAt(o', n, i); }
    if i' < k { PositionAt(o, n, i'); }
  }

  /** Where a use of group g moves group x. */
  lemma {:induction false} TouchPosition(o: seq<nat>, n: nat, g: nat, x: nat)
    requires IsOrder(o, n) && g < n && x < n
    ensures var i, j := Position(o, g), Position(o, x);
            Position(Touch(o, g), x) == if x == g then 0 else if j < i then j + 1 else j
  {
    var i, j, r := Position(o, g), Position(o, x), Touch(o, g);
    TouchKeepsOrder(o, n, g);
    var l := if x == g then 0 else if j < i then j + 1 else j;
    assert r[l] == x;
    PositionAt(r, n, l);
  }

  function FrontAfter(o: seq<nat>, k: nat, g: nat): nat
    requires g in o
  {
    if Position(o, g) < k then k else k + 1
  }

  /** A use of the same group keeps the front and brings the group into it. */
  lemma TouchFront(o: seq<nat>, o': seq<nat>, n: nat, k: nat, g: nat)
    requires IsOrder(o, n) && IsOrder(o', n) && SameFront(o, o', k) && g < n
    ensures SameFront(Touch(o, g), Touch(o', g), FrontAfter(o, k, g))
  {
    SameSpot(o, o', n, k, g);
    var i, i' := Position(o, g), Position(o', g);
    var r, r' := ToFront(o, i), ToFront(o', i');
    forall j | 0 <= j < FrontAfter(o, k, g) ensures r[j] == r'[j] {
      if j > 0 { assert j <= i ==> o[j - 1] == o'[j - 1]; }
    }
  }

  /** A front with all groups is the whole order. */
  lemma WholeFront(o: seq<nat>, o': seq<nat>, n: nat, k: nat)
    requires IsOrder(o, n) && IsOrder(o', n) && SameFront(o, o', k)
    requires forall g: nat :: g < n ==> g in o && Position(o, g) < k
    ensures o == o'
  {
    if k < n { PositionAt(o, n, k); }
  }

  // ----- The nested states -----

  /**
   Agreement after the first t nested ways were used: hits keep it, a hit on the next way extends
   it, and after all ways the states are the same.
   */
  ghost predicate Settles<X(!new)>(inner: Machine<X>, inv: X -> bool, agree: (nat, X, X) -> bool) {
    forall t: nat, x, y {:trigger SettlesAt(inner, inv, agree, t, x, y)} :: SettlesAt(inner, inv, agree, t, x, y)
  }

  ghost predicate SettlesAt<X>(inner: Machine<X>, inv: X -> bool, agree: (nat, X, X) -> bool, t: nat, x: X, y: X) {
    && (inv(x) && inv(y) ==> agree(0, x, y))
    && (agree(t, x, y) ==> forall v: nat :: v < inner.ways ==> agree(t, inner.hit(x, v), inner.hit(y, v)))
    && (agree(t, x, y) && t < inner.ways ==> agree(t + 1, inner.hit(x, t), inner.hit(y, t)))
    && (agree(inner.ways, x, y) ==> x == y)
  }

  /** How many of the first d ways belong to group j. */
  function Share(d: nat, j: nat, w: nat): nat {
    if d <= Times(j, w) then 0 else if d - Times(j, w) < w then d - Times(j, w) else w
  }

  lemma {:induction false} ShareMore(d: nat, j: nat, w: nat, n: nat)
    requires d < Times(w, n) && j < n
    ensures Share(d + 1, j, w) == if j == Group(d, w) then Slot(d, w) + 1 else Share(d, j, w)
    ensures j == Group(d, w) ==> Share(d, j, w) == Slot(d, w)
  {
    GroupBound(d, n, w);
    GroupSplits(d, w);
    var g := Group(d, w);
    if j < g { TimesMonotone(j + 1, g, w); }
    if g < j { TimesMonotone(g + 1, j, w); }
  }

  // ----- States that agree on what was used -----

  /** The groups with a way among the first d are in front. */
  ghost predicate UsedInFront(o: seq<nat>, n: nat, d: nat, w: nat, k: nat) {
    forall g: nat {:trigger Position(o, g)} :: g < n && Times(g, w) < d ==> g in o && Position(o, g) < k
  }

  ghost predicate AgreeOrders(o: seq<nat>, o': seq<nat>, n: nat, d: nat, w: nat) {
    exists k: nat :: SameFront(o, o', k) && UsedInFront(o, n, d, w, k)
  }

  ghost predicate AgreeInner<X>(agree: (nat, X, X) -> bool, c: seq<X>, d: seq<X>, dirty: nat, w: nat) {
    |c| == |d| && forall j: nat :: j < |c| ==> agree(Share(dirty, j, w), c[j], d[j])
  }

  ghost predicate Agree<X>(
    n: nat, inner: Machine<X>, inv: X -> bool, agree: (nat, X, X) -> bool, s: Wrapped<X>, u: Wrapped<X>)
  {
    && Good(s.parts, n, inv) && Good(u.parts, n, inv) && s.dirty == u.dirty <= Times(inner.ways, n)
    && AgreeOrders(s.parts.order, u.parts.order, n, s.dirty, inner.ways)
    && AgreeInner(agree, s.parts.inner, u.parts.inner, s.dirty, inner.ways)
  }

  lemma FrontHit(o: seq<nat>, n: nat, d: nat, w: nat, k: nat, g: nat, x: nat)
    requires IsOrder(o, n) && g < n && x < n && (x == g || Position(o, x) < k)
    ensures Position(Touch(o, g), x) < FrontAfter(o, k, g)
  {
    TouchPosition(o, n, g, x);
  }

  lemma OrdersHit(o: seq<nat>, o': seq<nat>, n: nat, d: nat, w: nat, g: nat)
    requires IsOrder(o, n) && IsOrder(o', n) && AgreeOrders(o, o', n, d, w) && g < n
    ensures AgreeOrders(Touch(o, g), Touch(o', g), n, d, w)
  {
    var k: nat :| SameFront(o, o', k) && UsedInFront(o, n, d, w, k);
    TouchFront(o, o', n, k, g);
    TouchKeepsOrder(o, n, g);
    forall x: nat | x < n && Times(x, w) < d ensures Position(Touch(o, g), x) < FrontAfter(o, k, g) {
      FrontHit(o, n, d, w, k, g, x);
    }
    assert UsedInFront(Touch(o, g), n, d, w, FrontAfter(o, k, g));
  }

  lemma GroupsUsed(d: nat, w: nat, x: nat)
    requires w > 0 && Times(x, w) < d + 1
    ensures x == Group(d, w) || Times(x, w) < d
  {
    GroupSplits(d, w);
    var g := Group(d, w);
    if g < x { TimesMonotone(g + 1, x, w); }
    if x < g { TimesMonotone(x + 1, g, w); }
  }

  lemma OrdersFill(o: seq<nat>, o': seq<nat>, n: nat, d: nat, w: nat)
    requires IsOrder(o, n) && IsOrder(o', n) && AgreeOrders(o, o', n, d, w) && w > 0 && Group(d, w) < n
    ensures AgreeOrders(Touch(o, Group(d, w)), Touch(o', Group(d, w)), n, d + 1, w)
  {
    var g := Group(d, w);
    var k: nat :| SameFront(o, o', k) && UsedInFront(o, n, d, w, k);
    TouchFront(o, o', n, k, g);
    TouchKeepsOrder(o, n, g);
    forall x: nat | x < n && Times(x, w) < d + 1 ensures Position(Touch(o, g), x) < FrontAfter(o, k, g) {
      GroupsUsed(d, w, x);
      FrontHit(o, n, d, w, k, g, x);
    }
    assert UsedInFront(Touch(o, g), n, d + 1, w, FrontAfter(o, k, g));
  }

  lemma InnerHit<X(!new)>(
    inner: Machine<X>, inv: X -> bool, agree: (nat, X, X) -> bool, c: seq<X>, d: seq<X>, dirty: nat, n: nat,
    g: nat, v: nat)
    requires Settles(inner, inv, agree) && AgreeInner(agree, c, d, dirty, inner.ways)
    requires |c| == n && g < n && v < inner.ways
    ensures var c', d' := c[g := inner.hit(c[g], v)], d[g := inner.hit(d[g], v)];
            && AgreeInner(agree, c', d', dirty, inner.ways)
            && (dirty < Times(inner.ways, n) && g == Group(dirty, inner.ways) && v == Slot(dirty, inner.ways) ==>
                  AgreeInner(agree, c', d', dirty + 1, inner.ways))
  {
    var w := inner.ways;
    assert SettlesAt(inner, inv, agree, Share(dirty, g, w), c[g], d[g]);
    if dirty < Times(w, n) && g == Group(dirty, w) && v == Slot(dirty, w) {
      forall j: nat | j < n ensures Share(dirty + 1, j, w) == (if j == g then v + 1 else Share(dirty, j, w)) {
        ShareMore(dirty, j, w, n);
      }
      ShareMore(dirty, g, w, n);
    }
  }

  lemma AgreeHit<X(!new)>(
    n: nat, inner: Machine<X>, inv: X -> bool, agree: (nat, X, X) -> bool, s: Wrapped<X>, u: Wrapped<X>, way: nat)
    requires Keeps(inner, inv) && Settles(inner, inv, agree)
    requires Agree(n, inner, inv, agree, s, u) && way < Times(inner.ways, n)
    ensures Agree(n, inner, inv, agree, WrappedHit(inner)(s, way), WrappedHit(inner)(u, way))
  {
    HitKeeps(n, inner, inv, s, way);
    HitKeeps(n, inner, inv, u, way);
    GroupBound(way, n, inner.ways);
    var g, v := Group(way, inner.ways), Slot(way, inner.ways);
    OrdersHit(s.parts.order, u.parts.order, n, s.dirty, inner.ways, g);
    InnerHit(inner, inv, agree, s.parts.inner, u.parts.inner, s.dirty, n, g, v);
  }

  /** The state after way number d was used, with its fill level d'. */
  function Used<X>(inner: Machine<X>, c: TwoLevel<X>, d: nat, d': nat): Wrapped<X>
    requires Group(d, inner.ways) < |c.inner|
  {
    var g := Group(d, inner.ways);
    Wrapped(TwoLevel(Touch(c.order, g), c.inner[g := inner.hit(c.inner[g], Slot(d, inner.ways))]), d')
  }

  lemma HitIs<X(!new)>(n: nat, inner: Machine<X>, inv: X -> bool, s: Wrapped<X>, way: nat)
    requires Keeps(inner, inv) && Good(s.parts, n, inv) && way < Times(inner.ways, n)
    ensures Group(way, inner.ways) < n && WrappedHit(inner)(s, way) == Used(inner, s.parts, way, s.dirty)
    ensures Good(Used(inner, s.parts, way, s.dirty).parts, n, inv)
  {
    GroupBound(way, n, inner.ways);
    HitKeeps(n, inner, inv, s, way);
  }

  lemma FillIs<X(!new)>(n: nat, inner: Machine<X>, inv: X -> bool, s: Wrapped<X>)
    requires Keeps(inner, inv) && Good(s.parts, n, inv) && s.dirty < Times(inner.ways, n)
    ensures Group(s.dirty, inner.ways) < n && WrappedMiss(n, inner)(s) == Used(inner, s.parts, s.dirty, s.dirty + 1)
    ensures Good(WrappedMiss(n, inner)(s).parts, n, inv)
  {
    GroupBound(s.dirty, n, inner.ways);
    HitKeeps(n, inner, inv, s.(dirty := s.dirty + 1), s.dirty);
  }

  lemma {:induction false} AgreeFill<X(!new)>(
    n: nat, inner: Machine<X>, inv: X -> bool, agree: (nat, X, X) -> bool, s: Wrapped<X>, u: Wrapped<X>)
    requires Keeps(inner, inv) && Settles(inner, inv, agree)
    requires Agree(n, inner, inv, agree, s, u) && s.dirty < Times(inner.ways, n)
    ensures Agree(n, inner, inv, agree, WrappedMiss(n, inner)(s), WrappedMiss(n, inner)(u))
  {
    FillBoth(n, inner, inv, s, u, s.dirty);
    AgreeUsed(n, inner, inv, agree, s, u, s.dirty);
  }

  lemma FillBoth<X(!new)>(n: nat, inner: Machine<X>, inv: X -> bool, s: Wrapped<X>, u: Wrapped<X>, d: nat)
    requires Keeps(inner, inv) && Good(s.parts, n, inv) && Good(u.parts, n, inv)
    requires s.dirty == u.dirty == d < Times(inner.ways, n)
    ensures Group(d, inner.ways) < n
    ensures WrappedMiss(n, inner)(s) == Used(inner, s.parts, d, d + 1)
    ensures WrappedMiss(n, inner)(u) == Used(inner, u.parts, d, d + 1)
    ensures Good(Used(inner, s.parts, d, d + 1).parts, n, inv) && Good(Used(inner, u.parts, d, d + 1).parts, n, inv)
  {
    FillIs(n, inner, inv, s);
    FillIs(n, inner, inv, u);
  }

  lemma AgreeUsed<X(!new)>(
    n: nat, inner: Machine<X>, inv: X -> bool, agree: (nat, X, X) -> bool, s: Wrapped<X>, u: Wrapped<X>, d: nat)
    requires Settles(inner, inv, agree) && Agree(n, inner, inv, agree, s, u)
    requires s.dirty == d < Times(inner.ways, n) && Group(d, inner.ways) < n
    requires Good(Used(inner, s.parts, d, d + 1).parts, n, inv) && Good(Used(inner, u.parts, d, d + 1).parts, n, inv)
    ensures Agree(n, inner, inv, agree, Used(inner, s.parts, d, d + 1), Used(inner, u.parts, d, d + 1))
  {
    PartsFill(n, inner, inv, agree, s.parts, u.parts, d);
    Assemble(n, inner, inv, agree, s.parts, u.parts, d);
  }

  lemma PartsFill<X(!new)>(
    n: nat, inner: Machine<X>, inv: X -> bool, agree: (nat, X, X) -> bool, c: TwoLevel<X>, e: TwoLevel<X>, d: nat)
    requires Settles(inner, inv, agree) && Good(c, n, inv) && Good(e, n, inv) && d < Times(inner.ways, n)
    requires AgreeOrders(c.order, e.order, n, d, inner.ways) && AgreeInner(agree, c.inner, e.inner, d, inner.ways)
    requires Group(d, inner.ways) < n
    ensures var s, u := Used(inner, c, d, d + 1), Used(inner, e, d, d + 1);
            && AgreeOrders(s.parts.order, u.parts.order, n, d + 1, inner.ways)
            && AgreeInner(agree, s.parts.inner, u.parts.inner, d + 1, inner.ways)
  {
    GroupBound(d, n, inner.ways);
    OrdersFill(c.order, e.order, n, d, inner.ways);
    InnerHit(inner, inv, agree, c.inner, e.inner, d, n, Group(d, inner.ways), Slot(d, inner.ways));
  }

  lemma Assemble<X>(
    n: nat, inner: Machine<X>, inv: X -> bool, agree: (nat, X, X) -> bool, c: TwoLevel<X>, e: TwoLevel<X>, d: nat)
    requires Group(d, inner.ways) < |c.inner| == |e.inner| && d + 1 <= Times(inner.ways, n)
    requires var s, u := Used(inner, c, d, d + 1), Used(inner, e, d, d + 1);
             && Good(s.parts, n, inv) && Good(u.parts, n, inv)
             && AgreeOrders(s.parts.order, u.parts.order, n, d + 1, inner.ways)
             && AgreeInner(agree, s.parts.inner, u.parts.inner, d + 1, inner.ways)
    ensures Agree(n, inner, inv, agree, Used(inner, c, d, d + 1), Used(inner, e, d, d + 1))
  {}

  /** Once all ways are filled, nothing of the start is left. */
  lemma AgreeFilled<X(!new)>(
    n: nat, inner: Machine<X>, inv: X -> bool, agree: (nat, X, X) -> bool, s: Wrapped<X>, u: Wrapped<X>)
    requires inner.ways > 0 && Settles(inner, inv, agree)
    requires Agree(n, inner, inv, agree, s, u) && s.dirty == Times(inner.ways, n)
    ensures s == u
  {
    var w := inner.ways;
    forall g: nat | g < n ensures Times(g, w) < s.dirty && Share(s.dirty, g, w) == w {
      TimesCommutes(w, n);
      TimesMonotone(g + 1, n, w);
    }
    OrdersFilled(s.parts.order, u.parts.order, n, s.dirty, w);
    forall j: nat | j < n ensures s.parts.inner[j] == u.parts.inner[j] {
      assert SettlesAt(inner, inv, agree, w, s.parts.inner[j], u.parts.inner[j]);
    }
    assert s.parts.inner == u.parts.inner;
  }

  lemma OrdersFilled(o: seq<nat>, o': seq<nat>, n: nat, d: nat, w: nat)
    requires IsOrder(o, n) && IsOrder(o', n) && AgreeOrders(o, o', n, d, w)
    requires forall g: nat :: g < n ==> Times(g, w) < d
    ensures o == o'
  {
    var k: nat :| SameFront(o, o', k) && UsedInFront(o, n, d, w, k);
    WholeFront(o, o', n, k);
  }

  ghost function Agreeing<X>(
    n: nat, inner: Machine<X>, inv: X -> bool, agree: (nat, X, X) -> bool): (Wrapped<X>, Wrapped<X>) -> bool
  {
    (s: Wrapped<X>, u: Wrapped<X>) => AgreeOrSame(n, inner, inv, agree, s, u)
  }

  ghost predicate AgreeOrSame<X>(
    n: nat, inner: Machine<X>, inv: X -> bool, agree: (nat, X, X) -> bool, s: Wrapped<X>, u: Wrapped<X>)
  {
    && Good(s.parts, n, inv) && s.dirty <= Times(inner.ways, n)
    && (s == u || Agree(n, inner, inv, agree, s, u))
  }

  function Same(): nat -> nat { (w: nat) => w }

  lemma AgreeingSimulates<X(!new)>(n: nat, inner: Machine<X>, inv: X -> bool, agree: (nat, X, X) -> bool)
    requires n > 0 && inner.ways > 0 && Keeps(inner, inv) && Settles(inner, inv, agree)
    ensures Simulates(WrappedMachine(n, inner), Agreeing(n, inner, inv, agree), Same())
  {
    var m, R := WrappedMachine(n, inner), Agreeing(n, inner, inv, agree);
    forall s, u | R(s, u) ensures SimulatesAt(m, R, Same(), s, u) {
      assert AgreeOrSame(n, inner, inv, agree, s, u);
      AgreeingStep(n, inner, inv, agree, s, u);
      forall way: nat | way < m.ways ensures R(m.hit(s, way), m.hit(u, Same()(way))) {
        AgreeingHit(n, inner, inv, agree, s, u, way);
      }
    }
  }

  lemma AgreeingStep<X(!new)>(
    n: nat, inner: Machine<X>, inv: X -> bool, agree: (nat, X, X) -> bool, s: Wrapped<X>, u: Wrapped<X>)
    requires n > 0 && inner.ways > 0 && Keeps(inner, inv)
    requires Settles(inner, inv, agree) && AgreeOrSame(n, inner, inv, agree, s, u)
    ensures AgreeOrSame(n, inner, inv, agree, WrappedMiss(n, inner)(s), WrappedMiss(n, inner)(u))
    ensures WrappedVictim(n, inner)(u) == WrappedVictim(n, inner)(s) < Times(inner.ways, n)
  {
    WrappedKeeps(n, inner, inv);
    assert WrappedOf(n, inner, inv)(s);
    assert KeepsAt(WrappedMachine(n, inner), WrappedOf(n, inner, inv), s);
    if s != u {
      if s.dirty == Times(inner.ways, n) { AgreeFilled(n, inner, inv, agree, s, u); }
      AgreeFill(n, inner, inv, agree, s, u);
    }
  }

  lemma AgreeingHit<X(!new)>(
    n: nat, inner: Machine<X>, inv: X -> bool, agree: (nat, X, X) -> bool, s: Wrapped<X>, u: Wrapped<X>, way: nat)
    requires n > 0 && Keeps(inner, inv) && Settles(inner, inv, agree) && AgreeOrSame(n, inner, inv, agree, s, u)
    requires way < Times(inner.ways, n)
    ensures AgreeOrSame(n, inner, inv, agree, WrappedHit(inner)(s, way), WrappedHit(inner)(u, way))
  {
    HitKeeps(n, inner, inv, s, way);
    if s != u { AgreeHit(n, inner, inv, agree, s, u, way); }
  }

  /** States that have filled nothing yet hit equally often on every trace. */
  lemma {:induction false} UnfilledStartIndependent<X(!new)>(
    n: nat, inner: Machine<X>, inv: X -> bool, agree: (nat, X, X) -> bool, s: Wrapped<X>, u: Wrapped<X>,
    trace: seq<nat>)
    requires n > 0 && inner.ways > 0 && Keeps(inner, inv) && Settles(inner, inv, agree)
    requires Good(s.parts, n, inv) && Good(u.parts, n, inv) && s.dirty == u.dirty == 0
    ensures var m := WrappedMachine(n, inner);
            HitCount(m, Fresh(m, s), trace) == HitCount(m, Fresh(m, u), trace)
  {
    AgreeingSimulates(n, inner, inv, agree);
    assert SameFront(s.parts.order, u.parts.order, 0) && UsedInFront(s.parts.order, n, 0, inner.ways, 0);
    forall j: nat | j < n ensures agree(Share(0, j, inner.ways), s.parts.inner[j], u.parts.inner[j]) {
      assert SettlesAt(inner, inv, agree, 0, s.parts.inner[j], u.parts.inner[j]);
    }
    assert AgreeOrSame(n, inner, inv, agree, s, u);
    RelatedStart(WrappedMachine(n, inner), Agreeing(n, inner, inv, agree), Same(), Same(), s, u, trace);
  }
}
