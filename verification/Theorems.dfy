/**
 What the parts say together: the eviction test is exact on the policies whose misses cycle, and
 elimination keeps the policy that a cache really has.
 */
module Theorems {
  import opened Collections
  import opened Words
  import opened Machines
  import opened Orders
  import opened Policies
  import opened LruWrapped
  import opened CacheSets
  import opened Hierarchies
  import opened SetAssociativeCaches
  import opened EvictionTests
  import opened EvictionSets
  import opened Minimizations
  import opened Measurements
  import opened StartIndependence
  import opened PolicyObjects
  import opened LruPlruStarts
  import opened LinearFills
  import opened SrripStarts
  import opened SrripTests
  import opened FifoQueues
  import T = PlruTrees

  // ----- Counting addresses of a set -----

  function InSet(place: nat -> nat, index: nat): nat -> bool { (a: nat) => place(a) == index }

  /** The addresses that fall into the set. */
  ghost function Chosen(place: nat -> nat, s: seq<nat>, index: nat): (e: multiset<nat>)
    ensures |e| == CountInSet(place, s, index) && AllIn(e, InSet(place, index))
  {
    if s == [] then multiset{}
    else
      var x, before := s[|s| - 1], Chosen(place, s[..|s| - 1], index);
      if place(x) == index then before + multiset{x} else before
  }

  lemma {:induction false} ChosenAll(place: nat -> nat, s: seq<nat>, index: nat, x: nat)
    ensures Chosen(place, s, index)[x] == if place(x) == index then multiset(s)[x] else 0
  {
    if s != [] {
      ChosenAll(place, s[..|s| - 1], index, x);
      assert s == s[..|s| - 1] + [s[|s| - 1]];
    }
  }

  lemma {:induction false} Trim(e: multiset<nat>, k: nat) returns (e': multiset<nat>)
    requires k <= |e|
    ensures e' <= e && |e'| == k
    decreases |e|
  {
    if k == |e| {
      e' := e;
    } else {
      var x :| x in e;
      e' := Trim(e - multiset{x}, k);
    }
  }

  /** Counting the addresses of the set and finding that many among them are the same. */
  lemma CountReaches(place: nat -> nat, s: seq<nat>, index: nat, k: nat)
    ensures CountInSet(place, s, index) >= k <==> Reaches(multiset(s), InSet(place, index), k)
  {
    var all, inSet := Chosen(place, s, index), InSet(place, index);
    forall x ensures all[x] == if inSet(x) then multiset(s)[x] else 0 { ChosenAll(place, s, index, x); }
    if CountInSet(place, s, index) >= k {
      var e := Trim(all, k);
      assert e <= multiset(s) && AllIn(e, inSet);
    }
    if Reaches(multiset(s), inSet, k) {
      var e :| e <= multiset(s) && |e| == k && AllIn(e, inSet);
      assert e <= all;
      Sizes(e, all);
    }
  }

  // ----- The eviction test is the threshold oracle -----

  /** Whenever the test gives a value, it is the threshold on the addresses of the target's set. */
  ghost predicate TestIsExact<C>(
    ops: CacheOps<C>, c: C, place: nat -> nat, target: nat, addresses: seq<nat>, ways: nat)
  {
    match Answer(ops, c, target, addresses)
    case None => true
    case Some(evicted) => evicted <==> Reaches(multiset(addresses), InSet(place, place(target)), ways)
  }

  lemma TestExact<S(!new)>(inv: S -> bool, c: Cache<S>, target: nat, addresses: seq<nat>)
    requires Keeps(c.machine, inv) && ValidCache(inv, c) && ReplacedLast(c.machine, SetOf(c, target).policy)
    requires target !in addresses
    ensures TestIsExact(SetAssociative<S>(), c, c.place, target, addresses, c.machine.ways)
  {
    if Answer(SetAssociative<S>(), c, target, addresses).Some? {
      ThresholdAnswer(inv, c, target, addresses);
      CountReaches(c.place, addresses, c.place(target), c.machine.ways);
    }
  }

  /** An exact test answers, whenever it does, as the oracle that the reduction algorithms need. */
  lemma TestIsOracle<C>(
    ops: CacheOps<C>, c: C, place: nat -> nat, target: nat, addresses: seq<nat>, ways: nat, evicts: Oracle)
    requires TestIsExact(ops, c, place, target, addresses, ways) && Threshold(evicts, InSet(place, place(target)), ways)
    ensures var answer := Answer(ops, c, target, addresses);
            answer == None || answer == Some(evicts(multiset(addresses)))
    ensures Monotone(evicts) && Bounded(evicts, ways) && (evicts(multiset{}) <==> ways == 0)
  {
    ThresholdSuits(evicts, InSet(place, place(target)), ways);
  }

  // ----- ... exactly if the target's way is replaced again last -----

  /** If the way is not replaced last, it is so too early or too late. */
  lemma EarlyOrLate<S>(m: Machine<S>, p: S) returns (k: nat)
    requires m.ways > 0 && !ReplacedLast(m, p)
    ensures k <= m.ways && (TakenAgain(m, p, k) <==> k < m.ways)
  {
    if TakenAgain(m, p, m.ways - 1) {
      k := m.ways - 1;
    } else {
      k := m.ways;
      if TakenAgain(m, p, m.ways) {
        forall j: nat | j < m.ways - 1 ensures NthVictim(m, m.miss(p), j) != m.victim(p) {}
        TakenNext(m, p, m.ways - 1);
        assert ReplacedLast(m, p);
      }
    }
  }

  /** Then some addresses of any large enough pool get a wrong answer. */
  lemma WrongAnswer<S(!new)>(inv: S -> bool, c: Cache<S>, target: nat, pool: seq<nat>) returns (addresses: seq<nat>)
    requires Keeps(c.machine, inv) && ValidCache(inv, c) && Pool(c, target, pool) && |pool| >= c.machine.ways > 0
    requires !ReplacedLast(c.machine, SetOf(c, target).policy)
    ensures addresses <= pool && target !in addresses && Answer(SetAssociative<S>(), c, target, addresses).Some?
    ensures !TestIsExact(SetAssociative<S>(), c, c.place, target, addresses, c.machine.ways)
  {
    var k := EarlyOrLate(c.machine, SetOf(c, target).policy);
    addresses := pool[..k];
    PoolAnswers(inv, c, target, pool, k);
    AnswerMeans(inv, c, target, addresses);
    CountReaches(c.place, addresses, c.place(target), c.machine.ways);
  }

  /**
   For any policy, on a cache with a large enough pool of test addresses: the test is the threshold
   on all addresses if and only if the target's way is replaced again by the last miss of a cycle.
   */
  lemma TestExactIff<S(!new)>(inv: S -> bool, c: Cache<S>, target: nat, pool: seq<nat>)
    requires Keeps(c.machine, inv) && ValidCache(inv, c) && Pool(c, target, pool) && |pool| >= c.machine.ways > 0
    ensures (forall addresses: seq<nat> :: target !in addresses ==>
               TestIsExact(SetAssociative<S>(), c, c.place, target, addresses, c.machine.ways))
       <==> ReplacedLast(c.machine, SetOf(c, target).policy)
  {
    if ReplacedLast(c.machine, SetOf(c, target).policy) {
      forall addresses: seq<nat> | target !in addresses
        ensures TestIsExact(SetAssociative<S>(), c, c.place, target, addresses, c.machine.ways)
      {
        TestExact(inv, c, target, addresses);
      }
    } else {
      var addresses := WrongAnswer(inv, c, target, pool);
    }
  }

  lemma PolicyOfSet<S>(inv: S -> bool, c: Cache<S>, target: nat)
    requires ValidCache(inv, c)
    ensures c.place(target) < |c.sets| && inv(SetOf(c, target).policy)
  {
    assert Valid(c.machine, inv, c.sets[c.place(target)]);
  }

  lemma OrderTestExact(n: nat, c: Cache<seq<nat>>, target: nat, addresses: seq<nat>)
    requires n > 0 && (c.machine == FifoMachine(n) || c.machine == LruMachine(n)) && ValidCache(OrderOf(n), c)
    requires target !in addresses
    ensures TestIsExact(SetAssociative(), c, c.place, target, addresses, n)
  {
    OrderMachinesKeep(n);
    PolicyOfSet(OrderOf(n), c, target);
    OrderMachinesCycle(n, SetOf(c, target).policy);
    SurvivesUntilCycle(c.machine, SetOf(c, target).policy);
    TestExact(OrderOf(n), c, target, addresses);
  }

  lemma PlruTestExact(h: nat, c: Cache<T.Tree>, target: nat, addresses: seq<nat>)
    requires c.machine == PlruMachine(h) && ValidCache(PerfectOf(h), c)
    requires target !in addresses
    ensures TestIsExact(SetAssociative(), c, c.place, target, addresses, Pow2(h))
  {
    PlruKeeps(h);
    PolicyOfSet(PerfectOf(h), c, target);
    PlruCycles(h, SetOf(c, target).policy);
    SurvivesUntilCycle(c.machine, SetOf(c, target).policy);
    TestExact(PerfectOf(h), c, target, addresses);
  }

  /** LRU over tree-PLRU cycles once its linear fill is complete. */
  lemma LruPlruCycles(n: nat, h: nat, s: Wrapped<T.Tree>)
    requires n > 0 && WrappedOf(n, PlruMachine(h), PerfectOf(h))(s) && s.dirty == Times(Pow2(h), n)
    ensures Cycles(WrappedMachine(n, PlruMachine(h)), s)
  {
    forall j | 0 <= j < n ensures Cycles(PlruMachine(h), s.parts.inner[j]) { PlruCycles(h, s.parts.inner[j]); }
    WrappedCycles(n, PlruMachine(h), s);
  }

  /** The states of a set from which the eviction test is exact: filled, or at a fitting fill level. */
  ghost predicate TestReady(n: nat, h: nat, s: Wrapped<T.Tree>) {
    s.dirty == Times(Pow2(h), n) || Place(n, Pow2(h), Reversed(h), s.dirty) == s.dirty
  }

  lemma ReadyIff(n: nat, h: nat, s: Wrapped<T.Tree>)
    requires n > 0 && LruPlruOf(n, h)(s)
    ensures TestReady(n, h, s) <==> ReplacedLast(LruPlruMachine(n, h), s)
    ensures s.dirty == 0 ==> TestReady(n, h, s)
  {
    if s.dirty == Times(Pow2(h), n) {
      LruPlruCycles(n, h, s);
      SurvivesUntilCycle(LruPlruMachine(n, h), s);
    } else {
      LruPlruReplacedLast(n, h, s);
      if s.dirty == 0 { UnfilledReplacedLast(n, h, s); }
    }
  }

  lemma LruPlruValid(n: nat, h: nat, c: Cache<Wrapped<T.Tree>>, target: nat)
    requires n > 0 && c.machine == LruPlruMachine(n, h) && ValidCache(LruPlruOf(n, h), c)
    ensures Keeps(c.machine, LruPlruOf(n, h)) && c.place(target) < |c.sets| && LruPlruOf(n, h)(SetOf(c, target).policy)
  {
    PlruKeeps(h);
    WrappedKeeps(n, PlruMachine(h), PerfectOf(h));
    PolicyOfSet(LruPlruOf(n, h), c, target);
  }

  /** Fresh and filled sets, among others, are ready: there the test is exact. */
  lemma {:induction false} LruPlruTestExact(n: nat, h: nat, c: Cache<Wrapped<T.Tree>>, target: nat, addresses: seq<nat>)
    requires n > 0 && c.machine == LruPlruMachine(n, h) && ValidCache(LruPlruOf(n, h), c)
    requires target !in addresses && TestReady(n, h, SetOf(c, target).policy)
    ensures TestIsExact(SetAssociative(), c, c.place, target, addresses, Times(Pow2(h), n))
  {
    LruPlruValid(n, h, c, target);
    ReadyIff(n, h, SetOf(c, target).policy);
    TestExact(LruPlruOf(n, h), c, target, addresses);
  }

  /** A composite whose target set is not ready answers some addresses of any large enough pool wrongly. */
  lemma LruPlruTestWrong(
    n: nat, h: nat, c: Cache<Wrapped<T.Tree>>, target: nat, pool: seq<nat>) returns (addresses: seq<nat>)
    requires n > 0 && c.machine == LruPlruMachine(n, h) && ValidCache(LruPlruOf(n, h), c)
    requires Pool(c, target, pool) && |pool| >= c.machine.ways && !TestReady(n, h, SetOf(c, target).policy)
    ensures addresses <= pool && target !in addresses && Answer(SetAssociative(), c, target, addresses).Some?
    ensures !TestIsExact(SetAssociative(), c, c.place, target, addresses, Times(Pow2(h), n))
  {
    LruPlruValid(n, h, c, target);
    ReadyIff(n, h, SetOf(c, target).policy);
    NumberBound(0, 0, n, Pow2(h));
    addresses := WrongAnswer(LruPlruOf(n, h), c, target, pool);
  }

  /** So on a cache with such a pool the test is exact if and only if the target's set is ready. */
  lemma {:induction false} LruPlruTestExactIff(n: nat, h: nat, c: Cache<Wrapped<T.Tree>>, target: nat, pool: seq<nat>)
    requires n > 0 && c.machine == LruPlruMachine(n, h) && ValidCache(LruPlruOf(n, h), c)
    requires Pool(c, target, pool) && |pool| >= c.machine.ways
    ensures (forall addresses: seq<nat> :: target !in addresses ==>
               TestIsExact(SetAssociative(), c, c.place, target, addresses, Times(Pow2(h), n)))
       <==> TestReady(n, h, SetOf(c, target).policy)
  {
    LruPlruValid(n, h, c, target);
    ReadyIff(n, h, SetOf(c, target).policy);
    NumberBound(0, 0, n, Pow2(h));
    TestExactIff(LruPlruOf(n, h), c, target, pool);
  }

  /** One way filled by another address: with two groups or more, the test is wrong. */
  lemma OneFilledNotReady(n: nat, h: nat, s: Wrapped<T.Tree>)
    requires n > 1 && h > 0 && LruPlruOf(n, h)(s) && s.dirty == 1
    ensures !TestReady(n, h, s)
  {
    ReadyIff(n, h, s);
    OneFilledNotReplacedLast(n, h, s);
  }

  // ----- SRRIP -----

  lemma SrripTestExact(bits: nat, byFrequency: bool, n: nat, c: Cache<seq<nat>>, target: nat, addresses: seq<nat>)
    requires c.machine == SrripMachine(bits, byFrequency, n) && ValidCache(SrripOf(bits, n), c)
    requires target !in addresses && Staircase(SetOf(c, target).policy)
    ensures TestIsExact(SetAssociative(), c, c.place, target, addresses, n)
  {
    SrripKeeps(bits, byFrequency, n);
    PolicyOfSet(SrripOf(bits, n), c, target);
    SrripReplacedLastIff(bits, byFrequency, n, SetOf(c, target).policy);
    TestExact(SrripOf(bits, n), c, target, addresses);
  }

  /** On SRRIP caches the test is exact if and only if the entries of the target's set form a staircase. */
  lemma SrripTestExactIff(bits: nat, byFrequency: bool, n: nat, c: Cache<seq<nat>>, target: nat, pool: seq<nat>)
    requires c.machine == SrripMachine(bits, byFrequency, n) && ValidCache(SrripOf(bits, n), c)
    requires Pool(c, target, pool) && |pool| >= n
    ensures (forall addresses: seq<nat> :: target !in addresses ==>
               TestIsExact(SetAssociative(), c, c.place, target, addresses, n))
       <==> Staircase(SetOf(c, target).policy)
  {
    SrripKeeps(bits, byFrequency, n);
    PolicyOfSet(SrripOf(bits, n), c, target);
    SrripReplacedLastIff(bits, byFrequency, n, SetOf(c, target).policy);
    TestExactIff(SrripOf(bits, n), c, target, pool);
  }

  // ----- Elimination keeps the true policy, or not -----

  /**
   The measurement of the trace on the cache, whatever it holds, does not abort, and the
   candidate whose simulation starts afresh survives the elimination by it.
   */
  ghost predicate Survives<C, P(!new)>(
    ops: CacheOps<C>, c: C, addresses: seq<nat>, trace: seq<nat>, candidates: seq<P>, simulated: P -> nat, truth: P)
    requires forall i :: 0 <= i < |trace| ==> trace[i] < |addresses|
  {
    match Measure(ops, c, addresses, trace)
    case Aborted => false
    case Running(_, hits) => truth in Matching(candidates, simulated, hits)
  }

  /** A candidate survives exactly if its count is the one from the set's state. */
  lemma CandidateSurvivesIff<S(!new), P(!new)>(
    inv: S -> bool, c: Cache<S>, index: nat, addresses: seq<nat>, trace: seq<nat>,
    candidates: seq<P>, simulated: P -> nat, candidate: P)
    requires Keeps(c.machine, inv) && ValidCache(inv, c) && index < |c.sets| && Probes(c, addresses, index)
    requires forall i :: 0 <= i < |trace| ==> trace[i] < |addresses|
    requires candidate in candidates
    ensures Survives(SetAssociative(), c, addresses, trace, candidates, simulated, candidate)
       <==> simulated(candidate) == HitCount(c.machine, Fresh(c.machine, c.sets[index].policy), trace)
  {
    MeasuredIsSimulated(inv, c, addresses, index, trace);
  }

  /** The true policy survives exactly if its count from the simulated start is the one from the set's state. */
  lemma {:induction false} SurvivesIff<S(!new), P(!new)>(
    inv: S -> bool, c: Cache<S>, index: nat, addresses: seq<nat>, trace: seq<nat>, start: S,
    candidates: seq<P>, simulated: P -> nat, truth: P)
    requires Keeps(c.machine, inv) && ValidCache(inv, c) && index < |c.sets| && Probes(c, addresses, index)
    requires forall i :: 0 <= i < |trace| ==> trace[i] < |addresses|
    requires truth in candidates && simulated(truth) == HitCount(c.machine, Fresh(c.machine, start), trace)
    ensures Survives(SetAssociative(), c, addresses, trace, candidates, simulated, truth)
       <==> HitCount(c.machine, Fresh(c.machine, c.sets[index].policy), trace)
              == HitCount(c.machine, Fresh(c.machine, start), trace)
  {
    CandidateSurvivesIff(inv, c, index, addresses, trace, candidates, simulated, truth);
  }

  lemma OrderSurvives<P(!new)>(
    n: nat, c: Cache<seq<nat>>, index: nat, addresses: seq<nat>, trace: seq<nat>,
    candidates: seq<P>, simulated: P -> nat, truth: P)
    requires n > 0 && (c.machine == FifoMachine(n) || c.machine == LruMachine(n)) && ValidCache(OrderOf(n), c)
    requires index < |c.sets| && Probes(c, addresses, index)
    requires forall i :: 0 <= i < |trace| ==> trace[i] < |addresses|
    requires truth in candidates && simulated(truth) == HitCount(c.machine, Fresh(c.machine, Numbers(n)), trace)
    ensures Survives(SetAssociative(), c, addresses, trace, candidates, simulated, truth)
  {
    OrderMachinesKeep(n);
    SurvivesIff(OrderOf(n), c, index, addresses, trace, Numbers(n), candidates, simulated, truth);
    assert Valid(c.machine, OrderOf(n), c.sets[index]);
    NumbersAreOrder(n);
    OrderStartIndependent(n, c.sets[index].policy, Numbers(n), trace);
  }

  lemma {:induction false} TellingInRange(n: nat, k: nat)
    requires n < k
    ensures forall i :: 0 <= i < |Telling(n)| ==> Telling(n)[i] < k
  {}

  /** One trace over one address more than ways tells FIFO from LRU, in any valid state of the cache. */
  lemma OrderTold<P(!new)>(
    n: nat, c: Cache<seq<nat>>, index: nat, addresses: seq<nat>,
    candidates: seq<P>, simulated: P -> nat, fifo: P, lru: P)
    requires n > 1 && (c.machine == FifoMachine(n) || c.machine == LruMachine(n)) && ValidCache(OrderOf(n), c)
    requires index < |c.sets| && Probes(c, addresses, index) && n < |addresses|
    requires fifo in candidates
    requires simulated(fifo) == HitCount(FifoMachine(n), Fresh(FifoMachine(n), Numbers(n)), Telling(n))
    requires lru in candidates
    requires simulated(lru) == HitCount(LruMachine(n), Fresh(LruMachine(n), Numbers(n)), Telling(n))
    ensures var trace := Telling(n);
            && (forall i :: 0 <= i < |trace| ==> trace[i] < |addresses|)
            && var left, gone := if c.machine == FifoMachine(n) then fifo else lru,
                                 if c.machine == FifoMachine(n) then lru else fifo;
               && Survives(SetAssociative(), c, addresses, trace, candidates, simulated, left)
               && !Survives(SetAssociative(), c, addresses, trace, candidates, simulated, gone)
  {
    TellingInRange(n, |addresses|);
    OrderMachinesKeep(n);
    NumbersAreOrder(n);
    var o := c.sets[index].policy;
    assert Valid(c.machine, OrderOf(n), c.sets[index]);
    CandidateSurvivesIff(OrderOf(n), c, index, addresses, Telling(n), candidates, simulated, fifo);
    CandidateSurvivesIff(OrderOf(n), c, index, addresses, Telling(n), candidates, simulated, lru);
    FifoTold(n, Numbers(n));
    LruTold(n, Numbers(n));
    FifoTold(n, o);
    LruTold(n, o);
  }

  lemma PlruSurvives<P(!new)>(
    h: nat, fresh_: T.Tree, c: Cache<T.Tree>, index: nat, addresses: seq<nat>, trace: seq<nat>,
    candidates: seq<P>, simulated: P -> nat, truth: P)
    requires c.machine == PlruMachine(h) && ValidCache(PerfectOf(h), c) && T.Perfect(fresh_, h)
    requires index < |c.sets| && Probes(c, addresses, index)
    requires forall i :: 0 <= i < |trace| ==> trace[i] < |addresses|
    requires truth in candidates && simulated(truth) == HitCount(c.machine, Fresh(c.machine, fresh_), trace)
    ensures Survives(SetAssociative(), c, addresses, trace, candidates, simulated, truth)
  {
    PlruKeeps(h);
    SurvivesIff(PerfectOf(h), c, index, addresses, trace, fresh_, candidates, simulated, truth);
    assert Valid(c.machine, PerfectOf(h), c.sets[index]);
    PlruStartIndependent(h, c.sets[index].policy, fresh_, trace);
  }

  /** SRRIP with equal entries in the set survives, with either promotion policy. */
  lemma SrripSurvives<P(!new)>(
    bits: nat, byFrequency: bool, n: nat, c: Cache<seq<nat>>, index: nat, addresses: seq<nat>, trace: seq<nat>,
    candidates: seq<P>, simulated: P -> nat, truth: P)
    requires c.machine == SrripMachine(bits, byFrequency, n) && ValidCache(SrripOf(bits, n), c)
    requires index < |c.sets| && Probes(c, addresses, index) && AllEqual(c.sets[index].policy)
    requires forall i :: 0 <= i < |trace| ==> trace[i] < |addresses|
    requires truth in candidates
    requires simulated(truth) == HitCount(c.machine, Fresh(c.machine, Flat(n, Distant(bits))), trace)
    ensures Survives(SetAssociative(), c, addresses, trace, candidates, simulated, truth)
  {
    SrripKeeps(bits, byFrequency, n);
    SurvivesIff(SrripOf(bits, n), c, index, addresses, trace, Flat(n, Distant(bits)), candidates, simulated, truth);
    assert Valid(c.machine, SrripOf(bits, n), c.sets[index]);
    FlatStart(bits, byFrequency, n, c.sets[index].policy, trace);
  }

  /** LRU over tree-PLRU survives if the simulation starts fresh for a fresh set, or filled for a filled one. */
  lemma {:induction false} LruPlruSurvives<P(!new)>(
    n: nat, h: nat, start: Wrapped<T.Tree>, c: Cache<Wrapped<T.Tree>>, index: nat, addresses: seq<nat>, trace: seq<nat>,
    candidates: seq<P>, simulated: P -> nat, truth: P)
    requires n > 0 && c.machine == LruPlruMachine(n, h) && ValidCache(LruPlruOf(n, h), c) && LruPlruOf(n, h)(start)
    requires index < |c.sets| && Probes(c, addresses, index)
    requires start.dirty == c.sets[index].policy.dirty && (start.dirty == 0 || start.dirty == Times(Pow2(h), n))
    requires forall i :: 0 <= i < |trace| ==> trace[i] < |addresses|
    requires truth in candidates && simulated(truth) == HitCount(c.machine, Fresh(c.machine, start), trace)
    ensures Survives(SetAssociative(), c, addresses, trace, candidates, simulated, truth)
  {
    LruPlruValid(n, h, c, 0);
    SurvivesIff(LruPlruOf(n, h), c, index, addresses, trace, start, candidates, simulated, truth);
    assert Valid(c.machine, LruPlruOf(n, h), c.sets[index]);
    if start.dirty == 0 {
      UnfilledLruPlru(n, h, c.sets[index].policy, start, trace);
    } else {
      FilledLruPlru(n, h, c.sets[index].policy, start, trace);
    }
  }

  /** As the program simulates it, from the fresh state, a used set eliminates it by some trace over its ways. */
  lemma LruPlruEliminated(
    n: nat, h: nat, fresh_: Wrapped<T.Tree>, c: Cache<Wrapped<T.Tree>>, index: nat,
    addresses: seq<nat>) returns (trace: seq<nat>)
    requires n > 0 && h > 0 && (n > 1 || h > 1)
    requires c.machine == LruPlruMachine(n, h) && ValidCache(LruPlruOf(n, h), c)
    requires LruPlruOf(n, h)(fresh_) && fresh_.dirty == 0
    requires index < |c.sets| && Probes(c, addresses, index)
    requires c.sets[index].policy.dirty > 0 && |addresses| >= c.machine.ways
    ensures forall i :: 0 <= i < |trace| ==> trace[i] < |addresses|
    ensures forall candidates: seq<nat>, simulated: nat -> nat, truth: nat ::
              truth in candidates && simulated(truth) == HitCount(c.machine, Fresh(c.machine, fresh_), trace)
              ==> !Survives(SetAssociative(), c, addresses, trace, candidates, simulated, truth)
  {
    LruPlruValid(n, h, c, 0);
    assert Valid(c.machine, LruPlruOf(n, h), c.sets[index]);
    trace := UsedDiffers(n, h, c.sets[index].policy, fresh_);
    forall candidates: seq<nat>, simulated: nat -> nat, truth: nat
      | truth in candidates && simulated(truth) == HitCount(c.machine, Fresh(c.machine, fresh_), trace)
      ensures !Survives(SetAssociative(), c, addresses, trace, candidates, simulated, truth)
    {
      SurvivesIff(LruPlruOf(n, h), c, index, addresses, trace, fresh_, candidates, simulated, truth);
    }
  }

  // ----- A cache among levels of other kinds -----

  lemma TestViewed<C(!new), S>(
    ops: CacheOps<C>, good: C -> bool, view: C -> Cache<S>, c: C, target: nat, addresses: seq<nat>, ways: nat)
    requires Views(ops, good, view) && good(c)
    ensures TestIsExact(ops, c, view(c).place, target, addresses, ways)
       <==> TestIsExact(SetAssociative(), view(c), view(c).place, target, addresses, ways)
  {
    AnswerViewed(ops, good, view, c, target, addresses);
  }

  lemma SurvivesViewed<C(!new), S, P(!new)>(
    ops: CacheOps<C>, good: C -> bool, view: C -> Cache<S>, c: C, addresses: seq<nat>, trace: seq<nat>,
    candidates: seq<P>, simulated: P -> nat, truth: P)
    requires Views(ops, good, view) && good(c) && forall i :: 0 <= i < |trace| ==> trace[i] < |addresses|
    ensures Survives(ops, c, addresses, trace, candidates, simulated, truth)
       <==> Survives(SetAssociative(), view(c), addresses, trace, candidates, simulated, truth)
  {
    MeasureViewed(ops, good, view, c, addresses, trace);
  }
}
