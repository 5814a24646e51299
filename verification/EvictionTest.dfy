/**
 The eviction-set test on the simulated memory, and what its answer means.
 */
module EvictionTests {
  import opened Collections
  import opened Machines
  import opened CacheSets
  import opened Hierarchies
  import opened SimulatedMemories
  import opened SetAssociativeCaches

  /** The nearest cache, whatever kind of cache it is, after accesses that must all miss it. */
  function MissAll<C>(ops: CacheOps<C>, c: C, addresses: seq<nat>): Option<C> {
    if addresses == [] then Some(c)
    else
      match MissAll(ops, c, addresses[..|addresses| - 1])
      case None => None
      case Some(c') =>
        var a := addresses[|addresses| - 1];
        if ops.lookup(c', a) then None else Some(ops.touch(c', a))
  }

  lemma MissOneMore<C>(ops: CacheOps<C>, c: C, before: seq<nat>, a: nat)
    ensures MissAll(ops, c, before + [a])
         == match MissAll(ops, c, before)
            case None => None
            case Some(c') => if ops.lookup(c', a) then None else Some(ops.touch(c', a))
  {
    assert (before + [a])[..|before|] == before;
  }

  /** The answer: no value if an access hit too early, otherwise whether the target is gone. */
  function Answer<C>(ops: CacheOps<C>, c: C, target: nat, addresses: seq<nat>): Option<bool> {
    if ops.lookup(c, target) then None
    else
      match MissAll(ops, ops.touch(c, target), addresses)
      case None => None
      case Some(c') => Some(!ops.lookup(c', target))
  }

  /** An access as the nearest cache sees it. */
  method AccessNearest<C(!new)>(mem: SimulatedMemory<C>, address: nat) returns (level: nat)
    requires |mem.caches| > 0
    modifies mem
    ensures |mem.caches| > 0 && mem.caches[0] == mem.ops.touch(old(mem.caches[0]), address)
    ensures level == 0 <==> mem.ops.lookup(old(mem.caches[0]), address)
  {
    NearestLevel(mem.ops, mem.caches, address);
    level := mem.InstrumentedAccess(address);
  }

  /** The answer depends on the nearest cache alone, whatever the farther levels are and hold. */
  method SafeIsEvictionSet<C(!new)>(mem: SimulatedMemory<C>, target: nat, addresses: seq<nat>) returns (r: Option<bool>)
    requires |mem.caches| > 0
    modifies mem
    ensures r == Answer(mem.ops, old(mem.caches[0]), target, addresses)
  {
    ghost var start := mem.ops.touch(mem.caches[0], target);
    var found := AccessNearest(mem, target);
    if found == 0 { return None; }
    for i := 0 to |addresses|
      invariant |mem.caches| > 0
      invariant MissAll(mem.ops, start, addresses[..i]) == Some(mem.caches[0])
    {
      assert addresses[..i + 1][..i] == addresses[..i];
      found := AccessNearest(mem, addresses[i]);
      if found == 0 {
        AbortedEarly(mem.ops, start, addresses, i + 1);
        return None;
      }
    }
    assert addresses[..|addresses|] == addresses;
    found := AccessNearest(mem, target);
    return Some(found > 0);
  }

  lemma {:induction false} AbortedEarly<C>(ops: CacheOps<C>, c: C, addresses: seq<nat>, i: nat)
    requires i <= |addresses| && MissAll(ops, c, addresses[..i]) == None
    ensures MissAll(ops, c, addresses) == None
    decreases |addresses|
  {
    if i < |addresses| {
      var init := addresses[..|addresses| - 1];
      assert init[..i] == addresses[..i];
      AbortedEarly(ops, c, init, i);
    } else {
      assert addresses[..i] == addresses;
    }
  }

  /** The nearest cache after accesses that may hit or miss. */
  function TouchAll<C>(ops: CacheOps<C>, c: C, addresses: seq<nat>): C {
    if addresses == [] then c
    else ops.touch(TouchAll(ops, c, addresses[..|addresses| - 1]), addresses[|addresses| - 1])
  }

  method UnsafeIsEvictionSet<C(!new)>(mem: SimulatedMemory<C>, target: nat, addresses: seq<nat>) returns (evicted: bool)
    requires |mem.caches| > 0
    modifies mem
    ensures evicted == !mem.ops.lookup(TouchAll(mem.ops, mem.ops.touch(old(mem.caches[0]), target), addresses), target)
  {
    ghost var start := mem.ops.touch(mem.caches[0], target);
    var found := AccessNearest(mem, target);
    for i := 0 to |addresses|
      invariant |mem.caches| > 0 && TouchAll(mem.ops, start, addresses[..i]) == mem.caches[0]
    {
      assert addresses[..i + 1][..i] == addresses[..i];
      found := AccessNearest(mem, addresses[i]);
    }
    assert addresses[..|addresses|] == addresses;
    found := AccessNearest(mem, target);
    return found > 0;
  }

  /** Whenever the safe test gives a value, the unsafe one gives the same. */
  lemma SafeAgreesWithUnsafe<C>(ops: CacheOps<C>, c: C, target: nat, addresses: seq<nat>)
    requires Answer(ops, c, target, addresses).Some?
    ensures Answer(ops, c, target, addresses).value
        == !ops.lookup(TouchAll(ops, ops.touch(c, target), addresses), target)
  {
    MissesAreTouches(ops, ops.touch(c, target), addresses);
  }

  lemma {:induction false} MissesAreTouches<C>(ops: CacheOps<C>, c: C, addresses: seq<nat>)
    requires MissAll(ops, c, addresses).Some?
    ensures MissAll(ops, c, addresses).value == TouchAll(ops, c, addresses)
  {
    if addresses != [] { MissesAreTouches(ops, c, addresses[..|addresses| - 1]); }
  }

  // ----- A set-associative cache among levels of other kinds -----

  /** The caches that are good can be viewed as set-associative caches with states of type S. */
  ghost predicate Views<C(!new), S>(ops: CacheOps<C>, good: C -> bool, view: C -> Cache<S>) {
    forall c, a: nat {:trigger ViewsAt(ops, good, view, c, a)} :: good(c) ==> ViewsAt(ops, good, view, c, a)
  }

  ghost predicate ViewsAt<C, S>(ops: CacheOps<C>, good: C -> bool, view: C -> Cache<S>, c: C, a: nat) {
    && good(ops.touch(c, a)) && view(ops.touch(c, a)) == Touch(view(c), a)
    && (ops.lookup(c, a) <==> Lookup(view(c), a))
  }

  lemma {:induction false} MissesViewed<C(!new), S>(
    ops: CacheOps<C>, good: C -> bool, view: C -> Cache<S>, c: C, addresses: seq<nat>)
    requires Views(ops, good, view) && good(c)
    ensures match MissAll(ops, c, addresses)
            case None => MissAll(SetAssociative<S>(), view(c), addresses) == None
            case Some(c') => good(c') && MissAll(SetAssociative<S>(), view(c), addresses) == Some(view(c'))
  {
    if addresses != [] {
      var before, a := addresses[..|addresses| - 1], addresses[|addresses| - 1];
      MissesViewed(ops, good, view, c, before);
      if MissAll(ops, c, before).Some? {
        assert ViewsAt(ops, good, view, MissAll(ops, c, before).value, a);
      }
    }
  }

  /** The test answers as it would on the viewed cache. */
  lemma AnswerViewed<C(!new), S>(
    ops: CacheOps<C>, good: C -> bool, view: C -> Cache<S>, c: C, target: nat, addresses: seq<nat>)
    requires Views(ops, good, view) && good(c)
    ensures Answer(ops, c, target, addresses) == Answer(SetAssociative<S>(), view(c), target, addresses)
  {
    assert ViewsAt(ops, good, view, c, target);
    MissesViewed(ops, good, view, ops.touch(c, target), addresses);
    match MissAll(ops, ops.touch(c, target), addresses)
    case None =>
    case Some(c') => assert ViewsAt(ops, good, view, c', target);
  }

  /** How many of the addresses fall into the given set. */
  function CountInSet(place: nat -> nat, addresses: seq<nat>, index: nat): nat {
    if addresses == [] then 0
    else CountInSet(place, addresses[..|addresses| - 1], index)
         + (if place(addresses[|addresses| - 1]) == index then 1 else 0)
  }

  // ----- One set -----

  /** One of the next k misses after the target was put into its way takes that way again. */
  ghost predicate TakenAgain<S>(m: Machine<S>, p: S, k: nat) {
    exists j: nat :: j < k && NthVictim(m, m.miss(p), j) == m.victim(p)
  }

  /** The set after k fills since the target was put into way v by a policy then in state p. */
  ghost predicate Aging<S>(m: Machine<S>, p: S, target: nat, s: CacheSet<S>, k: nat) {
    && |s.lines| == m.ways && Unique(s.lines) && s.policy == Iterate(m.miss, m.miss(p), k)
    && (if !TakenAgain(m, p, k) then m.victim(p) < m.ways && s.lines[m.victim(p)] == Tag(target)
        else forall w :: 0 <= w < |s.lines| ==> s.lines[w] != Tag(target))
  }

  lemma AgingStarts<S(!new)>(m: Machine<S>, inv: S -> bool, s: CacheSet<S>, target: nat)
    requires Keeps(m, inv) && Valid(m, inv, s) && !Holds(s, target)
    ensures Aging(m, s.policy, target, Access(m, s, target), 0)
  {
    assert KeepsAt(m, inv, s.policy);
    AccessKeeps(m, inv, s, target);
  }

  lemma AgingStep<S(!new)>(m: Machine<S>, inv: S -> bool, p: S, target: nat, s: CacheSet<S>, k: nat, a: nat)
    requires Keeps(m, inv) && inv(s.policy) && Aging(m, p, target, s, k) && a != target && !Holds(s, a)
    ensures Aging(m, p, target, Access(m, s, a), k + 1) && inv(Access(m, s, a).policy)
  {
    LastStep(m.miss, m.miss(p), k);
    assert KeepsAt(m, inv, s.policy);
    var v := m.victim(s.policy);
    assert v == NthVictim(m, m.miss(p), k);
    TakenNext(m, p, k);
    UniqueWrite(s.lines, v, a);
  }

  lemma TakenNext<S>(m: Machine<S>, p: S, k: nat)
    ensures TakenAgain(m, p, k + 1) <==> TakenAgain(m, p, k) || NthVictim(m, m.miss(p), k) == m.victim(p)
  {
    if TakenAgain(m, p, k) {
      var j: nat :| j < k && NthVictim(m, m.miss(p), j) == m.victim(p);
      assert j < k + 1;
    }
  }

  lemma UniqueWrite(lines: seq<Line>, v: nat, a: nat)
    requires Unique(lines) && v < |lines| && !(FindWay(lines, a) < |lines|)
    ensures Unique(lines[v := Tag(a)])
  {}

  lemma AgingAnswer<S>(m: Machine<S>, p: S, target: nat, s: CacheSet<S>, k: nat)
    requires Aging(m, p, target, s, k)
    ensures Holds(s, target) <==> !TakenAgain(m, p, k)
  {
    if !TakenAgain(m, p, k) { FindAt(s.lines, target, m.victim(p)); }
  }

  // ----- The whole cache -----

  /** The cache after accesses that missed: its set of the target has aged by k fills. */
  ghost predicate AgedCache<S>(inv: S -> bool, c: Cache<S>, p: S, target: nat, c': Cache<S>, k: nat) {
    && c'.machine == c.machine && c'.place == c.place && |c'.sets| == |c.sets| && c.place(target) < |c.sets|
    && inv(SetOf(c', target).policy) && Aging(c.machine, p, target, SetOf(c', target), k)
  }

  lemma AgedMore<S(!new)>(inv: S -> bool, c: Cache<S>, p: S, target: nat, c': Cache<S>, k: nat, a: nat)
    requires Keeps(c.machine, inv) && AgedCache(inv, c, p, target, c', k) && a != target && !Lookup(c', a)
    requires c.place(a) < |c.sets|
    ensures AgedCache(inv, c, p, target, Touch(c', a), if c.place(a) == c.place(target) then k + 1 else k)
  {
    if c.place(a) == c.place(target) { AgingStep(c.machine, inv, p, target, SetOf(c', target), k, a); }
  }

  lemma {:induction false} AgingRun<S(!new)>(inv: S -> bool, c: Cache<S>, p: S, target: nat, addresses: seq<nat>)
    requires Keeps(c.machine, inv) && ValidPlacement(c) && AgedCache(inv, c, p, target, c, 0)
    requires target !in addresses && MissAll(SetAssociative<S>(), c, addresses).Some?
    ensures AgedCache(inv, c, p, target, MissAll(SetAssociative<S>(), c, addresses).value,
                      CountInSet(c.place, addresses, c.place(target)))
  {
    if addresses != [] {
      var before, a := addresses[..|addresses| - 1], addresses[|addresses| - 1];
      assert addresses == before + [a];
      MissOneMore(SetAssociative<S>(), c, before, a);
      AgingRun(inv, c, p, target, before);
      var c' := MissAll(SetAssociative<S>(), c, before).value;
      AgedMore(inv, c, p, target, c', CountInSet(c.place, before, c.place(target)), a);
    }
  }

  ghost predicate ValidPlacement<S>(c: Cache<S>) {
    forall a: nat :: c.place(a) < |c.sets|
  }

  /**
   What the test means for any policy in any state: whenever it gives a value, that value is whether
   one of as many misses as addresses fall into the target's set takes the target's way again.
   */
  lemma AnswerMeans<S(!new)>(inv: S -> bool, c: Cache<S>, target: nat, addresses: seq<nat>)
    requires Keeps(c.machine, inv) && ValidCache(inv, c)
    requires target !in addresses && Answer(SetAssociative<S>(), c, target, addresses).Some?
    ensures Answer(SetAssociative<S>(), c, target, addresses).value
       <==> TakenAgain(c.machine, SetOf(c, target).policy, CountInSet(c.place, addresses, c.place(target)))
  {
    var p := SetOf(c, target).policy;
    AgingStarts(c.machine, inv, SetOf(c, target), target);
    AccessKeeps(c.machine, inv, SetOf(c, target), target);
    AgingRun(inv, Touch(c, target), p, target, addresses);
    var c' := MissAll(SetAssociative<S>(), Touch(c, target), addresses).value;
    AgingAnswer(c.machine, p, target, SetOf(c', target), CountInSet(c.place, addresses, c.place(target)));
  }

  lemma TakenByThreshold<S>(m: Machine<S>, p: S, k: nat)
    requires ReplacedLast(m, p)
    ensures TakenAgain(m, p, k) <==> k >= m.ways
  {
    if k >= m.ways { assert NthVictim(m, m.miss(p), m.ways - 1) == m.victim(p); }
  }

  /**
   The test is exact: whenever it gives a value, that value is whether at least as many of the
   addresses as the cache has ways fall into the target's set. This holds for every policy state
   from which the way of the target is replaced again by the last miss of a cycle.
   */
  lemma ThresholdAnswer<S(!new)>(inv: S -> bool, c: Cache<S>, target: nat, addresses: seq<nat>)
    requires Keeps(c.machine, inv) && ValidCache(inv, c) && ReplacedLast(c.machine, SetOf(c, target).policy)
    requires target !in addresses && Answer(SetAssociative<S>(), c, target, addresses).Some?
    ensures Answer(SetAssociative<S>(), c, target, addresses).value
       <==> CountInSet(c.place, addresses, c.place(target)) >= c.machine.ways
  {
    AnswerMeans(inv, c, target, addresses);
    TakenByThreshold(c.machine, SetOf(c, target).policy, CountInSet(c.place, addresses, c.place(target)));
  }

  // ----- The test does give a value -----

  ghost predicate Uncached<S>(c: Cache<S>, addresses: seq<nat>) {
    forall i :: 0 <= i < |addresses| ==> !Lookup(c, addresses[i])
  }

  /** A valid cache that holds nothing but what c holds and the given addresses. */
  ghost predicate GrownBy<S>(inv: S -> bool, c: Cache<S>, c': Cache<S>, addresses: seq<nat>) {
    && c'.machine == c.machine && ValidCache(inv, c')
    && forall x: nat :: Lookup(c', x) ==> Lookup(c, x) || x in addresses
  }

  lemma GrownMore<S(!new)>(inv: S -> bool, c: Cache<S>, c': Cache<S>, before: seq<nat>, a: nat)
    requires Keeps(c.machine, inv) && GrownBy(inv, c, c', before)
    ensures GrownBy(inv, c, Touch(c', a), before + [a])
  {
    TouchKeeps(inv, c', a);
    forall x: nat | Lookup(Touch(c', a), x) ensures Lookup(c, x) || x in before + [a] { TouchContents(inv, c', a, x); }
  }

  lemma NotGrown<S>(inv: S -> bool, c: Cache<S>, c': Cache<S>, before: seq<nat>, a: nat)
    requires GrownBy(inv, c, c', before) && !Lookup(c, a) && a !in before
    ensures !Lookup(c', a)
  {}

  /** Different uncached addresses all miss, and bring in nothing but themselves. */
  lemma {:induction false} FreshMisses<S(!new)>(inv: S -> bool, c: Cache<S>, addresses: seq<nat>)
    requires Keeps(c.machine, inv) && ValidCache(inv, c) && NoRepeats(addresses) && Uncached(c, addresses)
    ensures var r := MissAll(SetAssociative<S>(), c, addresses);
            r.Some? && GrownBy(inv, c, r.value, addresses)
  {
    if addresses != [] {
      var before, a := addresses[..|addresses| - 1], addresses[|addresses| - 1];
      assert addresses == before + [a];
      FreshMisses(inv, c, before);
      MissOneMore(SetAssociative<S>(), c, before, a);
      var c' := MissAll(SetAssociative<S>(), c, before).value;
      assert !Lookup(c, a) by { assert addresses[|addresses| - 1] == a; }
      NotGrown(inv, c, c', before, a);
      GrownMore(inv, c, c', before, a);
    }
  }

  /** On an uncached target and different uncached addresses the test always gives a value. */
  lemma AnswerGiven<S(!new)>(inv: S -> bool, c: Cache<S>, target: nat, addresses: seq<nat>)
    requires Keeps(c.machine, inv) && ValidCache(inv, c) && !Lookup(c, target)
    requires target !in addresses && Distinct(addresses) && Uncached(c, addresses)
    ensures Answer(SetAssociative<S>(), c, target, addresses).Some?
  {
    TouchKeeps(inv, c, target);
    NoRepeatsIff(addresses);
    forall i | 0 <= i < |addresses| ensures !Lookup(Touch(c, target), addresses[i]) {
      TouchContents(inv, c, target, addresses[i]);
    }
    FreshMisses(inv, Touch(c, target), addresses);
  }

  /** Addresses to test with: different, uncached, and all of the target's set. */
  ghost predicate Pool<S>(c: Cache<S>, target: nat, pool: seq<nat>) {
    && !Lookup(c, target) && target !in pool && Distinct(pool) && Uncached(c, pool)
    && forall i :: 0 <= i < |pool| ==> c.place(pool[i]) == c.place(target)
  }

  lemma {:induction false} PoolCount(place: nat -> nat, pool: seq<nat>, index: nat, k: nat)
    requires k <= |pool| && forall i :: 0 <= i < |pool| ==> place(pool[i]) == index
    ensures CountInSet(place, pool[..k], index) == k
  {
    if k > 0 {
      PoolCount(place, pool, index, k - 1);
      assert pool[..k][..k - 1] == pool[..k - 1];
    }
  }

  lemma PoolAnswers<S(!new)>(inv: S -> bool, c: Cache<S>, target: nat, pool: seq<nat>, k: nat)
    requires Keeps(c.machine, inv) && ValidCache(inv, c) && Pool(c, target, pool) && k <= |pool|
    ensures target !in pool[..k] && Answer(SetAssociative<S>(), c, target, pool[..k]).Some?
    ensures CountInSet(c.place, pool[..k], c.place(target)) == k
  {
    AnswerGiven(inv, c, target, pool[..k]);
    PoolCount(c.place, pool, c.place(target), k);
  }
}
