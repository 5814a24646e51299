/**
 Hierarchies whose levels have different policies: set-associative caches of several kinds under
 one type, as the simulated memory holds them.
 */
module MixedLevels {
  import opened Collections
  import opened Words
  import opened Machines
  import opened Orders
  import opened Policies
  import opened CacheSets
  import opened Hierarchies
  import opened LevelStreams
  import opened SimulatedMemories
  import opened EvictionTests
  import opened Measurements
  import opened SrripStarts
  import opened Theorems
  import W = LruWrapped
  import L = LruPlruStarts
  import A = SetAssociativeCaches
  import T = PlruTrees

  /** FIFO, LRU and SRRIP keep a list of numbers per set, PLRU a tree, LRU over PLRU both. */
  datatype AnyCache =
    | Listed(list: A.Cache<seq<nat>>)
    | Treed(tree: A.Cache<T.Tree>)
    | Layered(layers: A.Cache<W.Wrapped<T.Tree>>)

  predicate AnyLookup(c: AnyCache, a: nat) {
    match c
    case Listed(l) => A.Lookup(l, a)
    case Treed(t) => A.Lookup(t, a)
    case Layered(w) => A.Lookup(w, a)
  }

  function AnyTouch(c: AnyCache, a: nat): AnyCache {
    match c
    case Listed(l) => Listed(A.Touch(l, a))
    case Treed(t) => Treed(A.Touch(t, a))
    case Layered(w) => Layered(A.Touch(w, a))
  }

  function AnyVictim(c: AnyCache, a: nat): Line {
    match c
    case Listed(l) => A.Victim(l, a)
    case Treed(t) => A.Victim(t, a)
    case Layered(w) => A.Victim(w, a)
  }

  function AnyOps(): CacheOps<AnyCache> {
    CacheOps((c: AnyCache, a: nat) => AnyLookup(c, a),
             (c: AnyCache, a: nat) => AnyTouch(c, a),
             (c: AnyCache, a: nat) => AnyVictim(c, a))
  }

  /** The policy of a level, with its parameters. */
  datatype Kind = Fifo(ways: nat) | Lru(ways: nat)
    | Srrip(bits: nat, byFrequency: bool, ways: nat)
    | Plru(height: nat) | LruPlru(groups: nat, height: nat)

  /** A cache of this kind: tags are unique and in the set of their address, and the policy states are valid. */
  ghost predicate IsKind(k: Kind, c: AnyCache) {
    match k
    case Fifo(n) => n > 0 && c.Listed? && c.list.machine == FifoMachine(n) && A.ValidCache(OrderOf(n), c.list)
    case Lru(n) => n > 0 && c.Listed? && c.list.machine == LruMachine(n) && A.ValidCache(OrderOf(n), c.list)
    case Srrip(bits, f, n) =>
      c.Listed? && c.list.machine == SrripMachine(bits, f, n) && A.ValidCache(SrripOf(bits, n), c.list)
    case Plru(h) => c.Treed? && c.tree.machine == PlruMachine(h) && A.ValidCache(PerfectOf(h), c.tree)
    case LruPlru(n, h) =>
      n > 0 && c.Layered? && c.layers.machine == L.LruPlruMachine(n, h) && A.ValidCache(L.LruPlruOf(n, h), c.layers)
  }

  ghost function OfKind(k: Kind): AnyCache -> bool { (c: AnyCache) => IsKind(k, c) }

  // ----- Every kind is lawful, so a mixed hierarchy conserves addresses -----

  lemma KeepsOfKind(k: Kind, c: AnyCache)
    requires IsKind(k, c)
    ensures match c
            case Listed(l) => exists inv :: Keeps(l.machine, inv) && A.ValidCache(inv, l)
            case Treed(t) => exists inv :: Keeps(t.machine, inv) && A.ValidCache(inv, t)
            case Layered(w) => exists inv :: Keeps(w.machine, inv) && A.ValidCache(inv, w)
  {
    match k
    case Fifo(n) => OrderMachinesKeep(n);
    case Lru(n) => OrderMachinesKeep(n);
    case Srrip(bits, f, n) => SrripKeeps(bits, f, n);
    case Plru(h) => PlruKeeps(h);
    case LruPlru(n, h) =>
      PlruKeeps(h);
      W.WrappedKeeps(n, PlruMachine(h), PerfectOf(h));
  }

  lemma TouchKeepsKind(k: Kind, c: AnyCache, a: nat)
    requires IsKind(k, c)
    ensures IsKind(k, AnyTouch(c, a))
  {
    match k
    case Fifo(n) => OrderMachinesKeep(n); A.TouchKeeps(OrderOf(n), c.list, a);
    case Lru(n) => OrderMachinesKeep(n); A.TouchKeeps(OrderOf(n), c.list, a);
    case Srrip(bits, f, n) => SrripKeeps(bits, f, n); A.TouchKeeps(SrripOf(bits, n), c.list, a);
    case Plru(h) => PlruKeeps(h); A.TouchKeeps(PerfectOf(h), c.tree, a);
    case LruPlru(n, h) =>
      PlruKeeps(h);
      W.WrappedKeeps(n, PlruMachine(h), PerfectOf(h));
      A.TouchKeeps(L.LruPlruOf(n, h), c.layers, a);
  }

  /** What an access does to the contents of a cache of any kind. */
  lemma AnyContents(k: Kind, c: AnyCache, a: nat, x: nat)
    requires IsKind(k, c)
    ensures AnyLookup(AnyTouch(c, a), x) <==> x == a || (AnyLookup(c, x) && AnyVictim(c, a) != Tag(x))
    ensures AnyVictim(c, a).Tag? ==> AnyLookup(c, AnyVictim(c, a).address) && !AnyLookup(c, a)
  {
    KeepsOfKind(k, c);
    match c
    case Listed(l) =>
      var inv :| Keeps(l.machine, inv) && A.ValidCache(inv, l);
      A.TouchContents(inv, l, a, x);
    case Treed(t) =>
      var inv :| Keeps(t.machine, inv) && A.ValidCache(inv, t);
      A.TouchContents(inv, t, a, x);
    case Layered(w) =>
      var inv :| Keeps(w.machine, inv) && A.ValidCache(inv, w);
      A.TouchContents(inv, w, a, x);
  }

  lemma KindLawful(k: Kind)
    ensures Lawful(AnyOps(), OfKind(k))
  {
    forall c, a: nat | OfKind(k)(c) ensures LawfulAt(AnyOps(), OfKind(k), c, a) {
      TouchKeepsKind(k, c, a);
      forall x: nat ensures AnyLookup(AnyTouch(c, a), x) <==> x == a || (AnyLookup(c, x) && AnyVictim(c, a) != Tag(x)) {
        AnyContents(k, c, a, x);
      }
      AnyContents(k, c, a, a);
    }
  }

  ghost function Goods(kinds: seq<Kind>): (goods: seq<AnyCache -> bool>)
    ensures |goods| == |kinds| && forall l :: 0 <= l < |kinds| ==> goods[l] == OfKind(kinds[l])
  {
    seq(|kinds|, l requires 0 <= l < |kinds| => OfKind(kinds[l]))
  }

  /**
   For any number of set-associative levels with any mix of policies: an access reports the lowest
   level with the address and brings it to the nearest one; at every level the tags stay unique
   and in the set of their address; no other address comes in, what a level gives up ends in a
   farther one, and only what falls out of the last level is lost.
   */
  lemma {:induction false} MixedConserves(kinds: seq<Kind>, cs: seq<AnyCache>, a: nat)
    requires |kinds| == |cs| > 0 && forall l :: 0 <= l < |cs| ==> IsKind(kinds[l], cs[l])
    ensures var r := AccessLevels(AnyOps(), cs, a);
            && (forall l :: 0 <= l < |cs| ==> IsKind(kinds[l], r.caches[l]))
            && Conserves(AnyOps(), cs, a, r) && |r.dropped| <= FoundAt(AnyOps(), cs, a, 0) && AnyLookup(r.caches[0], a)
            && PassesDown(AnyOps(), cs, r.caches, r.dropped)
  {
    var goods := Goods(kinds);
    forall l | 0 <= l < |cs| ensures Lawful(AnyOps(), goods[l]) && goods[l](cs[l]) { KindLawful(kinds[l]); }
    AccessConserves(AnyOps(), goods, cs, a);
    AccessPassesDown(AnyOps(), goods, cs, a);
    var r := AccessLevels(AnyOps(), cs, a);
    forall l | 0 <= l < |cs| ensures IsKind(kinds[l], r.caches[l]) { assert goods[l](r.caches[l]); }
  }

  // ----- The tests on the nearest of mixed levels -----

  function AsList(): AnyCache -> A.Cache<seq<nat>> {
    (c: AnyCache) => if c.Listed? then c.list else A.Cache(FifoMachine(0), (a: nat) => 0, [])
  }

  function AsTree(): AnyCache -> A.Cache<T.Tree> {
    (c: AnyCache) => if c.Treed? then c.tree else A.Cache(PlruMachine(0), (a: nat) => 0, [])
  }

  function AsLayers(): AnyCache -> A.Cache<W.Wrapped<T.Tree>> {
    (c: AnyCache) => if c.Layered? then c.layers else A.Cache(L.LruPlruMachine(0, 0), (a: nat) => 0, [])
  }

  lemma KindsViewed(k: Kind)
    ensures (k.Fifo? || k.Lru? || k.Srrip?) ==> Views(AnyOps(), OfKind(k), AsList())
    ensures k.Plru? ==> Views(AnyOps(), OfKind(k), AsTree())
    ensures k.LruPlru? ==> Views(AnyOps(), OfKind(k), AsLayers())
  {
    forall c, a: nat | OfKind(k)(c) ensures OfKind(k)(AnyTouch(c, a)) { TouchKeepsKind(k, c, a); }
    if k.Fifo? || k.Lru? || k.Srrip? {
      forall c, a: nat | OfKind(k)(c) ensures ViewsAt(AnyOps(), OfKind(k), AsList(), c, a) {}
    } else if k.Plru? {
      forall c, a: nat | OfKind(k)(c) ensures ViewsAt(AnyOps(), OfKind(k), AsTree(), c, a) {}
    } else {
      forall c, a: nat | OfKind(k)(c) ensures ViewsAt(AnyOps(), OfKind(k), AsLayers(), c, a) {}
    }
  }

  /** The number of ways of a kind whose misses cycle from every state. */
  function CyclicWays(k: Kind): nat {
    match k
    case Fifo(n) => n
    case Lru(n) => n
    case Plru(h) => Pow2(h)
    case _ => 0
  }

  function PlaceIn(c: AnyCache): nat -> nat {
    match c
    case Listed(l) => l.place
    case Treed(t) => t.place
    case Layered(w) => w.place
  }

  /** The test is exact on a FIFO, LRU or PLRU level in any valid state, whatever the others are. */
  lemma MixedTestExact(k: Kind, c: AnyCache, target: nat, addresses: seq<nat>)
    requires IsKind(k, c) && (k.Fifo? || k.Lru? || k.Plru?) && target !in addresses
    ensures TestIsExact(AnyOps(), c, PlaceIn(c), target, addresses, CyclicWays(k))
  {
    KindsViewed(k);
    if k.Plru? {
      PlruTestExact(k.height, c.tree, target, addresses);
      TestViewed(AnyOps(), OfKind(k), AsTree(), c, target, addresses, CyclicWays(k));
    } else {
      OrderTestExact(CyclicWays(k), c.list, target, addresses);
      TestViewed(AnyOps(), OfKind(k), AsList(), c, target, addresses, CyclicWays(k));
    }
  }

  /** ... and on an LRU-over-PLRU level whose target set is ready. */
  lemma {:induction false} MixedLayeredTestExact(n: nat, h: nat, c: AnyCache, target: nat, addresses: seq<nat>)
    requires IsKind(LruPlru(n, h), c) && target !in addresses && TestReady(n, h, A.SetOf(c.layers, target).policy)
    ensures TestIsExact(AnyOps(), c, PlaceIn(c), target, addresses, Times(Pow2(h), n))
  {
    KindsViewed(LruPlru(n, h));
    LruPlruTestExact(n, h, c.layers, target, addresses);
    TestViewed(AnyOps(), OfKind(LruPlru(n, h)), AsLayers(), c, target, addresses, Times(Pow2(h), n));
  }

  /** ... and on an SRRIP level whose target set has entries that form a staircase. */
  lemma MixedSrripTestExact(bits: nat, byFrequency: bool, n: nat, c: AnyCache, target: nat, addresses: seq<nat>)
    requires IsKind(Srrip(bits, byFrequency, n), c) && target !in addresses && Staircase(A.SetOf(c.list, target).policy)
    ensures TestIsExact(AnyOps(), c, PlaceIn(c), target, addresses, n)
  {
    var k := Srrip(bits, byFrequency, n);
    KindsViewed(k);
    SrripTestExact(bits, byFrequency, n, c.list, target, addresses);
    TestViewed(AnyOps(), OfKind(k), AsList(), c, target, addresses, n);
  }

  /** The eviction test on a memory with mixed levels answers as the threshold on its nearest level. */
  method TestMixedMemory(
    mem: SimulatedMemory<AnyCache>, ghost k: Kind, target: nat, addresses: seq<nat>) returns (r: Option<bool>)
    requires mem.ops == AnyOps() && |mem.caches| > 0 && IsKind(k, mem.caches[0]) && (k.Fifo? || k.Lru? || k.Plru?)
    requires target !in addresses
    modifies mem
    ensures var place := PlaceIn(old(mem.caches[0]));
            r == None || r == Some(CountInSet(place, addresses, place(target)) >= CyclicWays(k))
  {
    MixedTestExact(k, mem.caches[0], target, addresses);
    CountReaches(PlaceIn(mem.caches[0]), addresses, PlaceIn(mem.caches[0])(target), CyclicWays(k));
    r := SafeIsEvictionSet(mem, target, addresses);
  }

  /** Measuring on the nearest of mixed levels keeps the true FIFO or LRU candidate. */
  lemma {:induction false} MixedOrderSurvives<P(!new)>(
    k: Kind, c: AnyCache, index: nat, addresses: seq<nat>, trace: seq<nat>, candidates: seq<P>,
    simulated: P -> nat, truth: P)
    requires IsKind(k, c) && (k.Fifo? || k.Lru?) && index < |c.list.sets| && Probes(c.list, addresses, index)
    requires forall i :: 0 <= i < |trace| ==> trace[i] < |addresses|
    requires truth in candidates
    requires simulated(truth) == HitCount(c.list.machine, Fresh(c.list.machine, Numbers(k.ways)), trace)
    ensures Survives(AnyOps(), c, addresses, trace, candidates, simulated, truth)
  {
    KindsViewed(k);
    OrderSurvives(k.ways, c.list, index, addresses, trace, candidates, simulated, truth);
    SurvivesViewed(AnyOps(), OfKind(k), AsList(), c, addresses, trace, candidates, simulated, truth);
  }

  lemma {:induction false} MixedPlruSurvives<P(!new)>(
    h: nat, fresh_: T.Tree, c: AnyCache, index: nat, addresses: seq<nat>, trace: seq<nat>,
    candidates: seq<P>, simulated: P -> nat, truth: P)
    requires IsKind(Plru(h), c) && T.Perfect(fresh_, h) && index < |c.tree.sets| && Probes(c.tree, addresses, index)
    requires forall i :: 0 <= i < |trace| ==> trace[i] < |addresses|
    requires truth in candidates && simulated(truth) == HitCount(c.tree.machine, Fresh(c.tree.machine, fresh_), trace)
    ensures Survives(AnyOps(), c, addresses, trace, candidates, simulated, truth)
  {
    KindsViewed(Plru(h));
    PlruSurvives(h, fresh_, c.tree, index, addresses, trace, candidates, simulated, truth);
    SurvivesViewed(AnyOps(), OfKind(Plru(h)), AsTree(), c, addresses, trace, candidates, simulated, truth);
  }
}
