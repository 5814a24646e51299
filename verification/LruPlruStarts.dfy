/**
 LRU over tree-PLRU: from which states a fresh simulation predicts the hit count.
 */
module LruPlruStarts {
  import opened Collections
  import opened Words
  import opened Machines
  import opened Orders
  import opened Policies
  import opened LruWrapped
  import opened CacheSets
  import opened StartIndependence
  import opened Fills
  import opened LostLines
  import opened WrappedRenaming
  import opened WrappedSettling
  import T = PlruTrees

  function LruPlruMachine(n: nat, h: nat): Machine<Wrapped<T.Tree>> { WrappedMachine(n, PlruMachine(h)) }

  ghost function LruPlruOf(n: nat, h: nat): Wrapped<T.Tree> -> bool { WrappedOf(n, PlruMachine(h), PerfectOf(h)) }

  // ----- Filled states -----

  /** Groups correspond by their place in the order, trees by the automorphism between them. */
  ghost function TreeMatch(h: nat, t: T.Tree, u: T.Tree): Match<T.Tree>
    requires T.Perfect(t, h) && T.Perfect(u, h)
  {
    Match(SameCarry(t, u, h), Renaming(t, u, h), Renaming(u, t, h))
  }

  lemma TreesMatch(h: nat, t: T.Tree, u: T.Tree)
    requires T.Perfect(t, h) && T.Perfect(u, h)
    ensures Matches(PlruMachine(h), TreeMatch(h, t, u)) && TreeMatch(h, t, u).related(t, u)
  {
    PlruSimulates(t, u, h);
    FlagsReflexive(t, u, h);
    RenamingBijective(t, u, h);
  }

  ghost function TreeMatches(h: nat, ts: seq<T.Tree>, us: seq<T.Tree>, groups: nat -> nat): (r: seq<Match<T.Tree>>)
    requires AllPerfect(h, ts) && AllPerfect(h, us) && forall g: nat :: g < |ts| ==> groups(g) < |us|
    ensures |r| == |ts| && forall g: nat :: g < |ts| ==> r[g] == TreeMatch(h, ts[g], us[groups(g)])
  {
    seq(|ts|, g requires 0 <= g < |ts| => TreeMatch(h, ts[g], us[groups(g)]))
  }

  ghost predicate AllPerfect(h: nat, ts: seq<T.Tree>) {
    forall t :: t in ts ==> T.Perfect(t, h)
  }

  ghost function TreePairing(n: nat, h: nat, c: TwoLevel<T.Tree>, d: TwoLevel<T.Tree>): (r: Pairing<T.Tree>)
    requires Good(c, n, PerfectOf(h)) && Good(d, n, PerfectOf(h))
    requires forall g: nat :: g < n ==> SamePlace(c.order, d.order)(g) < n
    ensures r.groups == SamePlace(c.order, d.order) && r.back == SamePlace(d.order, c.order) && |r.matches| == n
    ensures forall g: nat :: g < n ==> r.matches[g] == TreeMatch(h, c.inner[g], d.inner[r.groups(g)])
  {
    var groups := SamePlace(c.order, d.order);
    Pairing(groups, SamePlace(d.order, c.order), TreeMatches(h, c.inner, d.inner, groups))
  }

  lemma TreesPair(n: nat, h: nat, c: TwoLevel<T.Tree>, d: TwoLevel<T.Tree>) returns (r: Pairing<T.Tree>)
    requires Good(c, n, PerfectOf(h)) && Good(d, n, PerfectOf(h))
    ensures Pairs(n, PlruMachine(h), r) && r.groups == SamePlace(c.order, d.order)
    ensures forall g: nat {:trigger r.groups(g)} ::
        g < n ==> r.groups(g) < n && r.matches[g].related(c.inner[g], d.inner[r.groups(g)])
  {
    SamePlaceBijective(c.order, d.order, n);
    r := TreePairing(n, h, c, d);
    forall g: nat | g < n
      ensures Matches(PlruMachine(h), r.matches[g]) && r.matches[g].related(c.inner[g], d.inner[r.groups(g)])
    {
      TreesMatch(h, c.inner[g], d.inner[r.groups(g)]);
    }
  }

  lemma PlacesPair(o: seq<nat>, o': seq<nat>, n: nat)
    requires IsOrder(o, n) && IsOrder(o', n)
    ensures PlaceByPlace(n, SamePlace(o, o'))(o, o')
  {
    forall i | 0 <= i < n ensures o'[i] == SamePlace(o, o')(o[i]) { PositionAt(o, n, i); }
  }

  /** Any two filled states hit equally often on every trace. */
  lemma {:induction false} FilledLruPlru(n: nat, h: nat, s: Wrapped<T.Tree>, u: Wrapped<T.Tree>, trace: seq<nat>)
    requires n > 0 && LruPlruOf(n, h)(s) && LruPlruOf(n, h)(u) && s.dirty == u.dirty == Times(Pow2(h), n)
    ensures var m := LruPlruMachine(n, h);
            HitCount(m, Fresh(m, s), trace) == HitCount(m, Fresh(m, u), trace)
  {
    var r := TreesPair(n, h, s.parts, u.parts);
    PlacesPair(s.parts.order, u.parts.order, n);
    assert RelatedParts(n, PerfectOf(h), r, s.parts, u.parts);
    PlruKeeps(h);
    FilledStartIndependent(n, PlruMachine(h), PerfectOf(h), r, s, u, trace);
  }

  // ----- States that have filled nothing yet -----

  /** The trees agree at every node above one of the first t leaves. */
  predicate Settled(a: T.Tree, b: T.Tree, h: nat, t: nat)
    requires T.Perfect(a, h) && T.Perfect(b, h)
    decreases h
  {
    t == 0 || h == 0 ||
    (a.last == b.last
     && Settled(a.left, b.left, h - 1, if t < Pow2(h - 1) then t else Pow2(h - 1))
     && Settled(a.right, b.right, h - 1, if t < Pow2(h - 1) then 0 else t - Pow2(h - 1)))
  }

  function TreesAgree(h: nat): (nat, T.Tree, T.Tree) -> bool {
    (t: nat, a: T.Tree, b: T.Tree) => T.Perfect(a, h) && T.Perfect(b, h) && Settled(a, b, h, t)
  }

  lemma {:induction false} SettledHit(a: T.Tree, b: T.Tree, t: nat, path: T.Path)
    requires T.Perfect(a, |path|) && T.Perfect(b, |path|) && Settled(a, b, |path|, t)
    ensures Settled(T.Hit(a, path), T.Hit(b, path), |path|, t)
    decreases |path|
  {
    if path != [] && t > 0 {
      var half := Pow2(|path| - 1);
      if path[0] {
        SettledHit(a.right, b.right, if t < half then 0 else t - half, path[1..]);
      } else {
        SettledHit(a.left, b.left, if t < half then t else half, path[1..]);
      }
    }
  }

  /** The first bit of a path is the most significant one of its number. */
  lemma {:induction false} ValueFront(path: T.Path)
    requires path != []
    ensures Value(path) == (if path[0] then Pow2(|path| - 1) else 0) + Value(path[1..])
    decreases |path|
  {
    var k := |path| - 1;
    if k > 0 {
      ValueFront(path[..k]);
      assert path[1..][..k - 1] == path[..k][1..];
    }
  }

  /** A hit on the next leaf settles the nodes above it. */
  lemma {:induction false} SettledNext(a: T.Tree, b: T.Tree, path: T.Path)
    requires T.Perfect(a, |path|) && T.Perfect(b, |path|) && Settled(a, b, |path|, Value(path))
    ensures Settled(T.Hit(a, path), T.Hit(b, path), |path|, Value(path) + 1)
    decreases |path|
  {
    if path != [] {
      var half, rest, t := Pow2(|path| - 1), path[1..], Value(path);
      ValueFront(path);
      ValueBound(rest);
      if path[0] {
        SettledNext(a.right, b.right, rest);
      } else {
        SettledNext(a.left, b.left, rest);
      }
    }
  }

  lemma {:induction false} SettledWhole(a: T.Tree, b: T.Tree, h: nat)
    requires T.Perfect(a, h) && T.Perfect(b, h) && Settled(a, b, h, Pow2(h))
    ensures a == b
    decreases h
  {
    if h > 0 {
      assert Pow2(h) == 2 * Pow2(h - 1);
      SettledWhole(a.left, b.left, h - 1);
      SettledWhole(a.right, b.right, h - 1);
    }
  }

  lemma PlruSettles(h: nat)
    ensures Settles(PlruMachine(h), PerfectOf(h), TreesAgree(h))
  {
    var m, inv, agree := PlruMachine(h), PerfectOf(h), TreesAgree(h);
    forall t: nat, a, b ensures SettlesAt(m, inv, agree, t, a, b) { PlruSettlesAt(h, t, a, b); }
  }

  lemma PlruSettlesAt(h: nat, t: nat, a: T.Tree, b: T.Tree)
    ensures SettlesAt(PlruMachine(h), PerfectOf(h), TreesAgree(h), t, a, b)
  {
    var m, agree := PlruMachine(h), TreesAgree(h);
    if agree(t, a, b) {
      forall v: nat | v < m.ways ensures agree(t, m.hit(a, v), m.hit(b, v)) { TreesAgreeHit(h, t, a, b, v); }
      if t < m.ways { TreesAgreeNext(h, t, a, b); }
    }
    if agree(m.ways, a, b) { SettledWhole(a, b, h); }
  }

  lemma TreesAgreeHit(h: nat, t: nat, a: T.Tree, b: T.Tree, v: nat)
    requires TreesAgree(h)(t, a, b)
    ensures TreesAgree(h)(t, TreeHit(h)(a, v), TreeHit(h)(b, v))
  {
    SettledHit(a, b, t, Bits(v, 0, h));
  }

  lemma TreesAgreeNext(h: nat, t: nat, a: T.Tree, b: T.Tree)
    requires TreesAgree(h)(t, a, b) && t < Pow2(h)
    ensures TreesAgree(h)(t + 1, TreeHit(h)(a, t), TreeHit(h)(b, t))
  {
    ValueOfWay(t, h);
    SettledNext(a, b, Bits(t, 0, h));
  }

  lemma UnfilledLruPlru(n: nat, h: nat, s: Wrapped<T.Tree>, u: Wrapped<T.Tree>, trace: seq<nat>)
    requires n > 0 && LruPlruOf(n, h)(s) && LruPlruOf(n, h)(u) && s.dirty == u.dirty == 0
    ensures var m := LruPlruMachine(n, h);
            HitCount(m, Fresh(m, s), trace) == HitCount(m, Fresh(m, u), trace)
  {
    PlruKeeps(h);
    PlruSettles(h);
    UnfilledStartIndependent(n, PlruMachine(h), PerfectOf(h), TreesAgree(h), s, u, trace);
  }

  // ----- States that have filled something -----

  lemma WrappedFillsInOrder<X(!new)>(n: nat, inner: Machine<X>, inv: X -> bool)
    ensures FillsInOrder(WrappedMachine(n, inner), WrappedOf(n, inner, inv), Level())
    ensures HitsKeepLevel(WrappedMachine(n, inner), WrappedOf(n, inner, inv), Level())
  {
    var m, level := WrappedMachine(n, inner), Level<X>();
    forall s | WrappedOf(n, inner, inv)(s) && level(s) < m.ways ensures FillsInOrderAt(m, level, s) {}
  }

  lemma FrontIsTouched(order: seq<nat>, n: nat, g: nat)
    requires IsOrder(order, n) && g < n && n > 1
    ensures LeastRecent(Touch(order, g)) < n && LeastRecent(Touch(order, g)) != g
  {
    TouchKeepsOrder(order, n, g);
    var r := Touch(order, g);
    OrderDistinct(r, n);
    assert r[0] == g && r[0] != r[n - 1];
  }

  /** A hit next to a way leads the victim elsewhere: to another group, or as the nested policy does. */
  lemma {:induction false} WrappedSteersFrom<X(!new)>(n: nat, inner: Machine<X>, inv: X -> bool, s: Wrapped<X>, y: nat)
    requires n > 0 && Keeps(inner, inv) && WrappedOf(n, inner, inv)(s) && s.dirty == Times(inner.ways, n)
    requires inner.ways > 1 && (n > 1 || Steers(inner, s.parts.inner[0])) && y < Times(inner.ways, n)
    ensures SteersFrom(WrappedMachine(n, inner), s, y)
  {
    var m, w := WrappedMachine(n, inner), inner.ways;
    GroupBound(y, n, w);
    GroupSplits(y, w);
    var g, v := Group(y, w), Slot(y, w);
    var v': nat := if v == 0 then 1 else 0;
    if n == 1 {
      assert SteersFrom(inner, s.parts.inner[0], v);
      v' :| v' < w && v' != v && inner.victim(inner.hit(s.parts.inner[0], v')) != v;
    }
    var z := Times(g, w) + v';
    NumberBound(g, v', n, w);
    NumbersDiffer(g, v, g, v', w);
    GroupOfNumber(g, v', w);
    SteeredVictim(n, inner, inv, s, z, g, v);
    assert m.victim(m.hit(s, z)) != y;
  }

  lemma SteeredVictim<X(!new)>(n: nat, inner: Machine<X>, inv: X -> bool, s: Wrapped<X>, z: nat, g: nat, v: nat)
    requires n > 0 && Keeps(inner, inv) && WrappedOf(n, inner, inv)(s) && s.dirty == Times(inner.ways, n)
    requires z < Times(inner.ways, n) && Group(z, inner.ways) == g < n && v < inner.ways
    requires n > 1 || inner.victim(inner.hit(s.parts.inner[0], Slot(z, inner.ways))) != v
    ensures WrappedVictim(n, inner)(WrappedHit(inner)(s, z)) != Times(g, inner.ways) + v
  {
    HitIs(n, inner, inv, s, z);
    if n > 1 { FrontIsTouched(s.parts.order, n, g); }
    VictimElsewhere(n, inner, inv, Used(inner, s.parts, z, s.dirty).parts, g, v);
  }

  lemma VictimElsewhere<X(!new)>(n: nat, inner: Machine<X>, inv: X -> bool, c: TwoLevel<X>, g: nat, v: nat)
    requires n > 0 && Keeps(inner, inv) && Good(c, n, inv) && g < n && v < inner.ways
    requires LeastRecent(c.order) != g || inner.victim(c.inner[g]) != v
    ensures PartsVictim(c, inner) != Times(g, inner.ways) + v
  {
    var l := LeastRecent(c.order);
    assert KeepsAt(inner, inv, c.inner[l]);
    NumbersDiffer(l, inner.victim(c.inner[l]), g, v, inner.ways);
  }

  /** A hit on a leaf leads the victim to the other half, away from the leaf's sibling. */
  lemma {:induction false} PlruSteers(h: nat, t: T.Tree)
    requires h > 1 && T.Perfect(t, h)
    ensures Steers(PlruMachine(h), t)
  {
    var m := PlruMachine(h);
    forall y: nat | y < m.ways ensures SteersFrom(m, t, y) {
      var p := Bits(y, 0, h);
      ValueOfWay(y, h);
      var p' := p[h - 1 := !p[h - 1]];
      BitsOfValue(p');
      var z := Value(p');
      assert p'[h - 1] != p[h - 1];
      var q := T.Victim(T.Hit(t, p'), h);
      assert q[0] == !p'[0] && p'[0] == p[0];
      BitsOfValue(q);
      assert m.victim(m.hit(t, z)) == Value(q) != y;
    }
  }

  /** Once something was filled, some trace with no more addresses than ways loses one of them. */
  lemma UsedLosesOne<X(!new)>(n: nat, inner: Machine<X>, inv: X -> bool, s: Wrapped<X>) returns (trace: seq<nat>)
    requires n > 0 && inner.ways > 1 && Keeps(inner, inv) && WrappedOf(n, inner, inv)(s) && s.dirty > 0
    requires n > 1 || forall x :: inv(x) ==> Steers(inner, x)
    ensures |Members(trace)| <= Times(inner.ways, n) && !ReusesHit(WrappedMachine(n, inner), s, trace)
    ensures forall i :: 0 <= i < |trace| ==> trace[i] < Times(inner.ways, n)
  {
    var m, good := WrappedMachine(n, inner), WrappedOf(n, inner, inv);
    WrappedKeeps(n, inner, inv);
    var k := m.ways - 1;
    VictimsInRange(m, good, s, k);
    LevelAfter(n, inner, s, k);
    var q := Iterate(m.miss, s, k);
    forall y: nat | y < m.ways ensures SteersFrom(m, q, y) { WrappedSteersFrom(n, inner, inv, q, y); }
    trace := LosesOne(m, good, s);
  }

  lemma UnfilledKeepsAll<X(!new)>(n: nat, inner: Machine<X>, inv: X -> bool, s: Wrapped<X>, trace: seq<nat>)
    requires n > 0 && Keeps(inner, inv) && WrappedOf(n, inner, inv)(s)
    requires s.dirty == 0 && |Members(trace)| <= Times(inner.ways, n)
    ensures ReusesHit(WrappedMachine(n, inner), s, trace)
  {
    WrappedKeeps(n, inner, inv);
    WrappedFillsInOrder(n, inner, inv);
    KeepsAll(WrappedMachine(n, inner), WrappedOf(n, inner, inv), Level(), s, trace);
  }

  lemma UsedDiffers(n: nat, h: nat, s: Wrapped<T.Tree>, u: Wrapped<T.Tree>) returns (trace: seq<nat>)
    requires n > 0 && h > 0 && (n > 1 || h > 1) && LruPlruOf(n, h)(s)
    requires LruPlruOf(n, h)(u) && s.dirty > 0 && u.dirty == 0
    ensures var m := LruPlruMachine(n, h);
            HitCount(m, Fresh(m, s), trace) != HitCount(m, Fresh(m, u), trace)
    ensures forall i :: 0 <= i < |trace| ==> trace[i] < Times(Pow2(h), n)
  {
    PlruKeeps(h);
    assert Pow2(h) == 2 * Pow2(h - 1);
    if h > 1 {
      forall t | PerfectOf(h)(t) ensures Steers(PlruMachine(h), t) { PlruSteers(h, t); }
    }
    trace := UsedLosesOne(n, PlruMachine(h), PerfectOf(h), s);
    UnfilledKeepsAll(n, PlruMachine(h), PerfectOf(h), u, trace);
  }

  /**
   For every composite that has more than one group or at least four nested ways, and at least two:
   the count of every trace is the fresh one exactly if nothing was filled yet.
   */
  lemma LruPlruStartIff(n: nat, h: nat, s: Wrapped<T.Tree>, fresh_: Wrapped<T.Tree>)
    requires n > 0 && h > 0 && (n > 1 || h > 1) && LruPlruOf(n, h)(s) && LruPlruOf(n, h)(fresh_) && fresh_.dirty == 0
    ensures var m := LruPlruMachine(n, h);
            (forall trace :: HitCount(m, Fresh(m, s), trace) == HitCount(m, Fresh(m, fresh_), trace)) <==> s.dirty == 0
  {
    var m := LruPlruMachine(n, h);
    if s.dirty == 0 {
      forall trace ensures HitCount(m, Fresh(m, s), trace) == HitCount(m, Fresh(m, fresh_), trace) {
        UnfilledLruPlru(n, h, s, fresh_, trace);
      }
    } else {
      var trace := UsedDiffers(n, h, s, fresh_);
    }
  }
}
