/**
 The composites that are LRU with a linear fill: groups of one way each, and one group of two.
 With them the condition on the start is complete.
 */
module LruPlruSmall {
  import opened Words
  import opened Machines
  import opened Orders
  import opened Policies
  import opened LruWrapped
  import opened CacheSets
  import opened LruLikes
  import opened LruPlruStarts
  import T = PlruTrees

  // ----- Groups of one way each -----

  lemma {:induction false} GroupOfOne(way: nat)
    ensures Group(way, 1) == way && Slot(way, 1) == 0 && Times(way, 1) == way && Times(1, way) == way
  {
    if way > 0 { GroupOfOne(way - 1); }
  }

  function GroupOrder<X>(): Reading<Wrapped<X>> {
    Reading((s: Wrapped<X>) => s.parts.order, (s: Wrapped<X>) => s.dirty)
  }

  lemma SingleWaysAt<X(!new)>(n: nat, inner: Machine<X>, inv: X -> bool, s: Wrapped<X>)
    requires n > 0 && inner.ways == 1 && Keeps(inner, inv) && WrappedOf(n, inner, inv)(s)
    ensures LruLikeAt(WrappedMachine(n, inner), GroupOrder(), s)
  {
    var m, r := WrappedMachine(n, inner), GroupOrder<X>();
    GroupOfOne(n);
    forall w: nat | w < n ensures UsesWay(r, s, m.hit(s, w), w) && r.level(m.hit(s, w)) == r.level(s) { GroupOfOne(w); }
    if s.dirty < n {
      GroupOfOne(s.dirty);
    } else {
      var l := LeastRecent(s.parts.order);
      assert KeepsAt(inner, inv, s.parts.inner[l]);
      GroupOfOne(l);
    }
  }

  lemma SingleWaysLikeLru<X(!new)>(n: nat, inner: Machine<X>, inv: X -> bool)
    requires n > 0 && inner.ways == 1 && Keeps(inner, inv)
    ensures LruLike(WrappedMachine(n, inner), WrappedOf(n, inner, inv), GroupOrder())
  {
    forall s | WrappedOf(n, inner, inv)(s) ensures LruLikeAt(WrappedMachine(n, inner), GroupOrder(), s) {
      SingleWaysAt(n, inner, inv, s);
    }
  }

  // ----- One group of two ways -----

  function PairOrder(s: Wrapped<T.Tree>): seq<nat> {
    if |s.parts.inner| == 1 && s.parts.inner[0].Node? && s.parts.inner[0].last then [1, 0] else [0, 1]
  }

  function TreeOrder(): Reading<Wrapped<T.Tree>> {
    Reading((s: Wrapped<T.Tree>) => PairOrder(s), (s: Wrapped<T.Tree>) => s.dirty)
  }

  lemma BitsOfTwo(w: nat)
    requires w < 2
    ensures Bits(w, 0, 1) == [w == 1] && Value([w == 1]) == w && Pow2(1) == 2
  {
    assert Pow2(1) == 2 * Pow2(0);
    assert Value([w == 1]) == 2 * Value([w == 1][..0]) + (if w == 1 then 1 else 0);
  }

  lemma TouchPair(x: nat, y: nat, w: nat)
    requires x < 2 && y == 1 - x && w < 2
    ensures Touch([x, y], w) == [w, 1 - w] && Recycle([x, y]) == [y, x]
    ensures LeastRecent([x, y]) == y && IsOrder([x, y], 2)
  {
    assert 0 in [x, y] && 1 in [x, y];
    assert w == y && y != x ==> [x, y][1..] == [y] && Position([y], y) == 0;
  }

  lemma PairParts(s: Wrapped<T.Tree>)
    requires LruPlruOf(1, 1)(s)
    ensures s.parts.order == [0] && |s.parts.inner| == 1 && s.parts.inner[0].Node?
    ensures s.parts.inner[0].left.Leaf? && s.parts.inner[0].right.Leaf? && Times(Pow2(1), 1) == 2
    ensures PairOrder(s) == if s.parts.inner[0].last then [1, 0] else [0, 1]
  {
    BitsOfTwo(0);
    assert PerfectOf(1)(s.parts.inner[0]);
    var t := s.parts.inner[0];
    assert T.Perfect(t, 1) && T.Perfect(t.left, 0) && T.Perfect(t.right, 0);
    assert Times(2, 1) == Times(1, 1) + 1 && Times(1, 1) == Times(0, 1) + 1;
    assert s.parts.order[0] == 0;
  }

  /** A use of a way sets the bit to its side. */
  lemma PairHit(s: Wrapped<T.Tree>, w: nat)
    requires LruPlruOf(1, 1)(s) && w < 2
    ensures var s' := WrappedHit(PlruMachine(1))(s, w);
            PairOrder(s') == [w, 1 - w] && s'.dirty == s.dirty
  {
    PairParts(s);
    BitsOfTwo(w);
    assert Group(w, 2) == 0 && Slot(w, 2) == w;
    var t := s.parts.inner[0];
    assert T.Hit(t, [w == 1]).last == (w == 1);
  }

  lemma PairMiss(s: Wrapped<T.Tree>)
    requires LruPlruOf(1, 1)(s) && s.dirty == 2
    ensures var s', last := WrappedMiss(1, PlruMachine(1))(s), s.parts.inner[0].last;
            && PairOrder(s') == (if last then [0, 1] else [1, 0]) && s'.dirty == 2
            && WrappedVictim(1, PlruMachine(1))(s) == (if last then 0 else 1)
  {
    PairParts(s);
    var t := s.parts.inner[0];
    var w: nat := if t.last then 0 else 1;
    BitsOfTwo(w);
    assert T.Victim(t, 1) == [!t.last] + T.Victim(T.Child(t, !t.last), 0);
    assert T.Victim(t, 1) == [w == 1] && T.Hit(t, [w == 1]).last == (w == 1);
    assert Times(0, 2) == 0;
  }

  // The same, said of the order.
  lemma PairTouched(s: Wrapped<T.Tree>, w: nat)
    requires LruPlruOf(1, 1)(s) && w < 2
    ensures var s' := WrappedHit(PlruMachine(1))(s, w);
            PairOrder(s') == Touch(PairOrder(s), w) && s'.dirty == s.dirty
  {
    PairHit(s, w);
    TouchPair(PairOrder(s)[0], PairOrder(s)[1], w);
  }

  lemma PairFilled(s: Wrapped<T.Tree>)
    requires LruPlruOf(1, 1)(s) && s.dirty < 2
    ensures var s' := WrappedMiss(1, PlruMachine(1))(s);
            && PairOrder(s') == Touch(PairOrder(s), s.dirty) && s'.dirty == s.dirty + 1
            && WrappedVictim(1, PlruMachine(1))(s) == s.dirty
  {
    PairFill(s);
    TouchPair(PairOrder(s)[0], PairOrder(s)[1], s.dirty);
  }

  lemma PairMissed(s: Wrapped<T.Tree>)
    requires LruPlruOf(1, 1)(s) && s.dirty == 2
    ensures var s' := WrappedMiss(1, PlruMachine(1))(s);
            && PairOrder(s') == Recycle(PairOrder(s)) && s'.dirty == 2
            && WrappedVictim(1, PlruMachine(1))(s) == LeastRecent(PairOrder(s))
  {
    PairMiss(s);
    PairParts(s);
    TouchPair(PairOrder(s)[0], PairOrder(s)[1], 0);
  }

  lemma PairStarts(s: Wrapped<T.Tree>)
    requires LruPlruOf(1, 1)(s)
    ensures IsOrder(PairOrder(s), 2) && s.dirty <= 2 == LruPlruMachine(1, 1).ways
  {
    PairParts(s);
    TouchPair(PairOrder(s)[0], PairOrder(s)[1], 0);
  }

  lemma PairAt(s: Wrapped<T.Tree>)
    requires LruPlruOf(1, 1)(s)
    ensures LruLikeAt(LruPlruMachine(1, 1), TreeOrder(), s)
  {
    var m, r := LruPlruMachine(1, 1), TreeOrder();
    PairStarts(s);
    forall w: nat | w < m.ways ensures UsesWay(r, s, m.hit(s, w), w) && r.level(m.hit(s, w)) == r.level(s) {
      PairTouched(s, w);
    }
    if s.dirty < 2 { PairFilled(s); } else { PairMissed(s); }
  }

  lemma PairFill(s: Wrapped<T.Tree>)
    requires LruPlruOf(1, 1)(s) && s.dirty < 2
    ensures var s' := WrappedMiss(1, PlruMachine(1))(s);
            && PairOrder(s') == [s.dirty, 1 - s.dirty] && s'.dirty == s.dirty + 1
            && WrappedVictim(1, PlruMachine(1))(s) == s.dirty
  {
    PairParts(s);
    PairHit(s.(dirty := s.dirty + 1), s.dirty);
  }

  lemma PairLikeLru()
    ensures LruLike(LruPlruMachine(1, 1), LruPlruOf(1, 1), TreeOrder())
  {
    forall s | LruPlruOf(1, 1)(s) ensures LruLikeAt(LruPlruMachine(1, 1), TreeOrder(), s) { PairAt(s); }
  }

  // ----- The whole condition -----

  lemma {:induction false} SmallStart(n: nat, h: nat, s: Wrapped<T.Tree>, u: Wrapped<T.Tree>, trace: seq<nat>)
    requires n > 0 && (h == 0 || (n == 1 && h == 1)) && LruPlruOf(n, h)(s) && LruPlruOf(n, h)(u)
    ensures var m := LruPlruMachine(n, h);
            HitCount(m, Fresh(m, s), trace) == HitCount(m, Fresh(m, u), trace)
  {
    PlruKeeps(h);
    WrappedKeeps(n, PlruMachine(h), PerfectOf(h));
    NumberBound(0, 0, n, Pow2(h));
    if h == 0 {
      SingleWaysLikeLru(n, PlruMachine(0), PerfectOf(0));
      LikeLruStart(LruPlruMachine(n, 0), LruPlruOf(n, 0), GroupOrder(), s, u, trace);
    } else {
      PairLikeLru();
      LikeLruStart(LruPlruMachine(1, 1), LruPlruOf(1, 1), TreeOrder(), s, u, trace);
    }
  }

  /**
   For every LRU over tree-PLRU: the count of every trace is the one from the fresh state exactly
   if nothing was filled yet, or the composite is true LRU.
   */
  lemma LruPlruStartExactly(n: nat, h: nat, s: Wrapped<T.Tree>, fresh_: Wrapped<T.Tree>)
    requires n > 0 && LruPlruOf(n, h)(s) && LruPlruOf(n, h)(fresh_) && fresh_.dirty == 0
    ensures var m := LruPlruMachine(n, h);
            (forall trace :: HitCount(m, Fresh(m, s), trace) == HitCount(m, Fresh(m, fresh_), trace))
            <==> s.dirty == 0 || h == 0 || (n == 1 && h == 1)
  {
    var m := LruPlruMachine(n, h);
    if h == 0 || (n == 1 && h == 1) {
      forall trace ensures HitCount(m, Fresh(m, s), trace) == HitCount(m, Fresh(m, fresh_), trace) {
        SmallStart(n, h, s, fresh_, trace);
      }
    } else {
      LruPlruStartIff(n, h, s, fresh_);
    }
  }
}
