/**
 For tree-PLRU, FIFO and LRU the simulated hit count does not depend on the state that the
 policy starts in, so that a fresh policy may be simulated against a polluted cache.
 */
module StartIndependence {
  import opened Words
  import opened Orders
  import opened Policies
  import opened CacheSets
  import T = PlruTrees

  // ----- Tree-PLRU -----

  /** Ways of t renamed into the corresponding ways of u. */
  function Renaming(t: T.Tree, u: T.Tree, h: nat): nat -> nat
    requires T.Perfect(t, h) && T.Perfect(u, h)
  {
    (w: nat) => Value(T.Carry(t, u, Bits(w, 0, h)))
  }

  /** At corresponding nodes, s and v agree exactly where t and u do: the correspondence is the same. */
  predicate SameFlags(t: T.Tree, u: T.Tree, s: T.Tree, v: T.Tree, h: nat)
    requires T.Perfect(t, h) && T.Perfect(u, h) && T.Perfect(s, h) && T.Perfect(v, h)
  {
    h == 0 ||
    ((t.last == u.last) == (s.last == v.last)
     && SameFlags(t.left, T.Child(u, t.last != u.last), s.left, T.Child(v, t.last != u.last), h - 1)
     && SameFlags(t.right, T.Child(u, t.last == u.last), s.right, T.Child(v, t.last == u.last), h - 1))
  }

  function SameCarry(t: T.Tree, u: T.Tree, h: nat): (T.Tree, T.Tree) -> bool
    requires T.Perfect(t, h) && T.Perfect(u, h)
  {
    (s, v) => T.Perfect(s, h) && T.Perfect(v, h) && SameFlags(t, u, s, v, h)
  }

  lemma {:induction false} FlagsReflexive(t: T.Tree, u: T.Tree, h: nat)
    requires T.Perfect(t, h) && T.Perfect(u, h)
    ensures SameFlags(t, u, t, u, h)
  {
    if h > 0 {
      FlagsReflexive(t.left, T.Child(u, t.last != u.last), h - 1);
      FlagsReflexive(t.right, T.Child(u, t.last == u.last), h - 1);
    }
  }

  lemma {:induction false} FlagsCarry(t: T.Tree, u: T.Tree, s: T.Tree, v: T.Tree, p: T.Path)
    requires T.Perfect(t, |p|) && T.Perfect(u, |p|) && T.Perfect(s, |p|) && T.Perfect(v, |p|)
    requires SameFlags(t, u, s, v, |p|)
    ensures T.Carry(s, v, p) == T.Carry(t, u, p)
  {
    if p != [] {
      var side := T.Carry(t, u, p)[0];
      FlagsCarry(T.Child(t, p[0]), T.Child(u, side), T.Child(s, p[0]), T.Child(v, side), p[1..]);
    }
  }

  lemma {:induction false} FlagsHit(t: T.Tree, u: T.Tree, s: T.Tree, v: T.Tree, p: T.Path)
    requires T.Perfect(t, |p|) && T.Perfect(u, |p|) && T.Perfect(s, |p|) && T.Perfect(v, |p|)
    requires SameFlags(t, u, s, v, |p|)
    ensures SameFlags(t, u, T.Hit(s, p), T.Hit(v, T.Carry(t, u, p)), |p|)
  {
    if p != [] {
      var c := T.Carry(t, u, p);
      assert c[1..] == T.Carry(T.Child(t, p[0]), T.Child(u, c[0]), p[1..]);
      FlagsHit(T.Child(t, p[0]), T.Child(u, c[0]), T.Child(s, p[0]), T.Child(v, c[0]), p[1..]);
    }
  }

  lemma {:induction false} CarryBack(t: T.Tree, u: T.Tree, p: T.Path)
    requires T.Perfect(t, |p|) && T.Perfect(u, |p|)
    ensures T.Carry(u, t, T.Carry(t, u, p)) == p
  {
    if p != [] {
      var c := T.Carry(t, u, p);
      CarryBack(T.Child(t, p[0]), T.Child(u, c[0]), p[1..]);
      assert p == [p[0]] + p[1..];
    }
  }

  lemma BitsOfValue(v: seq<bool>)
    ensures Bits(Value(v), 0, |v|) == v && Value(v) < Pow2(|v|)
  {
    ValueBound(v);
    ValueOfBits(Value(v), |v|);
    LowOfSmall(Value(v), |v|);
    ValueInjective(Bits(Value(v), 0, |v|), v);
  }

  lemma ValueOfWay(w: nat, h: nat)
    requires w < Pow2(h)
    ensures Value(Bits(w, 0, h)) == w
  {
    ValueOfBits(w, h);
    LowOfSmall(w, h);
  }

  lemma RenamingBack(t: T.Tree, u: T.Tree, h: nat, w: nat)
    requires T.Perfect(t, h) && T.Perfect(u, h) && w < Pow2(h)
    ensures Renaming(t, u, h)(w) < Pow2(h) && Renaming(u, t, h)(Renaming(t, u, h)(w)) == w
  {
    var p := Bits(w, 0, h);
    BitsOfValue(T.Carry(t, u, p));
    CarryBack(t, u, p);
    ValueOfWay(w, h);
  }

  lemma RenamingBijective(t: T.Tree, u: T.Tree, h: nat)
    requires T.Perfect(t, h) && T.Perfect(u, h)
    ensures Bijection(Pow2(h), Renaming(t, u, h), Renaming(u, t, h))
  {
    var sigma, tau := Renaming(t, u, h), Renaming(u, t, h);
    forall w: nat | w < Pow2(h) ensures sigma(w) < Pow2(h) && tau(sigma(w)) == w { RenamingBack(t, u, h, w); }
    forall w: nat | w < Pow2(h) ensures tau(w) < Pow2(h) && sigma(tau(w)) == w { RenamingBack(u, t, h, w); }
  }

  lemma HitsCorrespond(t: T.Tree, u: T.Tree, h: nat, s: T.Tree, v: T.Tree, w: nat)
    requires T.Perfect(t, h) && T.Perfect(u, h) && SameCarry(t, u, h)(s, v)
    ensures SameCarry(t, u, h)(TreeHit(h)(s, w), TreeHit(h)(v, Renaming(t, u, h)(w)))
  {
    FlagsHit(t, u, s, v, Bits(w, 0, h));
    BitsOfValue(T.Carry(t, u, Bits(w, 0, h)));
  }

  lemma MissesCorrespond(t: T.Tree, u: T.Tree, h: nat, s: T.Tree, v: T.Tree)
    requires T.Perfect(t, h) && T.Perfect(u, h) && SameCarry(t, u, h)(s, v)
    ensures T.Carry(t, u, T.Victim(s, h)) == T.Victim(v, h)
    ensures SameCarry(t, u, h)(TreeMiss(h)(s), TreeMiss(h)(v))
  {
    T.CarryVictim(s, v, h);
    FlagsCarry(t, u, s, v, T.Victim(s, h));
    FlagsHit(t, u, s, v, T.Victim(s, h));
  }

  lemma VictimsCorrespond(t: T.Tree, u: T.Tree, h: nat, s: T.Tree, v: T.Tree)
    requires T.Perfect(t, h) && T.Perfect(u, h) && T.Perfect(s, h) && T.Perfect(v, h)
    requires T.Carry(t, u, T.Victim(s, h)) == T.Victim(v, h)
    ensures TreeVictim(h)(s) < Pow2(h) && TreeVictim(h)(v) == Renaming(t, u, h)(TreeVictim(h)(s))
  {
    BitsOfValue(T.Victim(s, h));
  }

  lemma PlruSimulates(t: T.Tree, u: T.Tree, h: nat)
    requires T.Perfect(t, h) && T.Perfect(u, h)
    ensures Simulates(PlruMachine(h), SameCarry(t, u, h), Renaming(t, u, h))
  {
    var m, R, sigma := PlruMachine(h), SameCarry(t, u, h), Renaming(t, u, h);
    forall s, v | R(s, v) ensures SimulatesAt(m, R, sigma, s, v) {
      forall w: nat | w < m.ways ensures R(m.hit(s, w), m.hit(v, sigma(w))) { HitsCorrespond(t, u, h, s, v, w); }
      MissesCorrespond(t, u, h, s, v);
      VictimsCorrespond(t, u, h, s, v);
    }
  }

  /** The PLRU hit count does not depend on the initial tree bits. */
  lemma PlruStartIndependent(h: nat, t: T.Tree, u: T.Tree, trace: seq<nat>)
    requires T.Perfect(t, h) && T.Perfect(u, h)
    ensures HitCount(PlruMachine(h), Fresh(PlruMachine(h), t), trace)
        == HitCount(PlruMachine(h), Fresh(PlruMachine(h), u), trace)
  {
    PlruSimulates(t, u, h);
    FlagsReflexive(t, u, h);
    RenamingBijective(t, u, h);
    RelatedStart(PlruMachine(h), SameCarry(t, u, h), Renaming(t, u, h), Renaming(u, t, h), t, u, trace);
  }

  // ----- FIFO and LRU -----

  /** The way at the same place of the other order. */
  function SamePlace(o: seq<nat>, o': seq<nat>): nat -> nat {
    (w: nat) => if w in o && Position(o, w) < |o'| then o'[Position(o, w)] else 0
  }

  ghost function PlaceByPlace(n: nat, sigma: nat -> nat): (seq<nat>, seq<nat>) -> bool {
    (p, q) => IsOrder(p, n) && IsOrder(q, n) && forall i :: 0 <= i < n ==> q[i] == sigma(p[i])
  }

  lemma SamePlaceBijective(o: seq<nat>, o': seq<nat>, n: nat)
    requires IsOrder(o, n) && IsOrder(o', n)
    ensures Bijection(n, SamePlace(o, o'), SamePlace(o', o))
  {
    forall w: nat | w < n ensures SamePlace(o, o')(w) < n && SamePlace(o', o)(SamePlace(o, o')(w)) == w {
      PositionAt(o', n, Position(o, w));
    }
    forall w: nat | w < n ensures SamePlace(o', o)(w) < n && SamePlace(o, o')(SamePlace(o', o)(w)) == w {
      PositionAt(o, n, Position(o', w));
    }
  }

  lemma TouchPlaces(p: seq<nat>, q: seq<nat>, n: nat, sigma: nat -> nat, w: nat)
    requires PlaceByPlace(n, sigma)(p, q) && w < n
    ensures PlaceByPlace(n, sigma)(Touch(p, w), Touch(q, sigma(w)))
  {
    TouchKeepsOrder(p, n, w);
    var i := Position(p, w);
    assert q[i] == sigma(w);
    PositionAt(q, n, i);
    TouchKeepsOrder(q, n, sigma(w));
    var p', q' := Touch(p, w), Touch(q, sigma(w));
    assert p' == ToFront(p, i) && q' == ToFront(q, i);
    forall j | 0 <= j < n ensures q'[j] == sigma(p'[j]) {
      var l := if j == 0 then i else if j <= i then j - 1 else j;
      assert p'[j] == p[l] && q'[j] == q[l];
    }
  }

  lemma RecyclePlaces(p: seq<nat>, q: seq<nat>, n: nat, sigma: nat -> nat)
    requires PlaceByPlace(n, sigma)(p, q)
    ensures PlaceByPlace(n, sigma)(Recycle(p), Recycle(q))
  {
    RecycleKeepsOrder(p, n);
    RecycleKeepsOrder(q, n);
    forall j | 0 <= j < n ensures Recycle(q)[j] == sigma(Recycle(p)[j]) {
      RecycledAt(p, j);
      RecycledAt(q, j);
    }
  }

  lemma RecycledAt(order: seq<nat>, j: nat)
    requires j < |order|
    ensures |Recycle(order)| == |order| && Recycle(order)[j] == order[if j == 0 then |order| - 1 else j - 1]
  {}

  lemma OrderMachinesSimulate(n: nat, sigma: nat -> nat)
    requires n > 0
    ensures Simulates(FifoMachine(n), PlaceByPlace(n, sigma), sigma)
    ensures Simulates(LruMachine(n), PlaceByPlace(n, sigma), sigma)
  {
    var R := PlaceByPlace(n, sigma);
    forall p, q | R(p, q) ensures SimulatesAt(FifoMachine(n), R, sigma, p, q) { FifoPlaces(p, q, n, sigma); }
    forall p, q | R(p, q) ensures SimulatesAt(LruMachine(n), R, sigma, p, q) { LruPlaces(p, q, n, sigma); }
  }

  lemma FifoPlaces(p: seq<nat>, q: seq<nat>, n: nat, sigma: nat -> nat)
    requires n > 0 && PlaceByPlace(n, sigma)(p, q)
    ensures SimulatesAt(FifoMachine(n), PlaceByPlace(n, sigma), sigma, p, q)
  {
    RecyclePlaces(p, q, n, sigma);
  }

  lemma LruPlaces(p: seq<nat>, q: seq<nat>, n: nat, sigma: nat -> nat)
    requires n > 0 && PlaceByPlace(n, sigma)(p, q)
    ensures SimulatesAt(LruMachine(n), PlaceByPlace(n, sigma), sigma, p, q)
  {
    var R := PlaceByPlace(n, sigma);
    RecyclePlaces(p, q, n, sigma);
    LastPlace(p, q, n, sigma);
    forall w: nat | w < n ensures R(Touch(p, w), Touch(q, sigma(w))) { TouchPlaces(p, q, n, sigma, w); }
    LruAt(n, R, sigma, p, q);
  }

  lemma LastPlace(p: seq<nat>, q: seq<nat>, n: nat, sigma: nat -> nat)
    requires n > 0 && PlaceByPlace(n, sigma)(p, q)
    ensures LeastRecent(p) < n && LeastRecent(q) == sigma(LeastRecent(p))
  {}

  lemma LruAt(n: nat, R: (seq<nat>, seq<nat>) -> bool, sigma: nat -> nat, p: seq<nat>, q: seq<nat>)
    requires R(Recycle(p), Recycle(q)) && LeastRecent(p) < n && LeastRecent(q) == sigma(LeastRecent(p))
    requires forall w: nat :: w < n ==> R(Touch(p, w), Touch(q, sigma(w)))
    ensures SimulatesAt(LruMachine(n), R, sigma, p, q)
  {}

  /** The FIFO and LRU hit counts do not depend on the initial order. */
  lemma OrderStartIndependent(n: nat, o: seq<nat>, o': seq<nat>, trace: seq<nat>)
    requires n > 0 && IsOrder(o, n) && IsOrder(o', n)
    ensures HitCount(FifoMachine(n), Fresh(FifoMachine(n), o), trace)
        == HitCount(FifoMachine(n), Fresh(FifoMachine(n), o'), trace)
    ensures HitCount(LruMachine(n), Fresh(LruMachine(n), o), trace)
        == HitCount(LruMachine(n), Fresh(LruMachine(n), o'), trace)
  {
    var sigma, tau := SamePlace(o, o'), SamePlace(o', o);
    SamePlaceBijective(o, o', n);
    OrderMachinesSimulate(n, sigma);
    forall i | 0 <= i < n ensures o'[i] == sigma(o[i]) { PositionAt(o, n, i); }
    RelatedStart(FifoMachine(n), PlaceByPlace(n, sigma), sigma, tau, o, o', trace);
    RelatedStart(LruMachine(n), PlaceByPlace(n, sigma), sigma, tau, o, o', trace);
  }
}
