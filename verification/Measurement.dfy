/**
 Measuring a sequence on the memory, and eliminating the candidate policies that do not explain
 the measurement.
 */
module Measurements {
  import opened Collections
  import opened Machines
  import opened CacheSets
  import opened Hierarchies
  import opened SimulatedMemories
  import opened SetAssociativeCaches
  import opened EvictionTests
  import opened Swaps

  /** The nearest cache and the hits counted so far; the sequence holds indices of addresses. */
  datatype Progress<C> = Aborted | Running(cache: C, hits: nat)

  /** The first use of an address must miss; later uses are counted when they hit. */
  function Measure<C>(ops: CacheOps<C>, c: C, addresses: seq<nat>, trace: seq<nat>): Progress<C>
    requires forall i :: 0 <= i < |trace| ==> trace[i] < |addresses|
  {
    if trace == [] then Running(c, 0)
    else
      var before, x := trace[..|trace| - 1], trace[|trace| - 1];
      match Measure(ops, c, addresses, before)
      case Aborted => Aborted
      case Running(c', hits) =>
        var hit := ops.lookup(c', addresses[x]);
        if x in before then Running(ops.touch(c', addresses[x]), hits + (if hit then 1 else 0))
        else if hit then Aborted
        else Running(ops.touch(c', addresses[x]), hits)
  }

  lemma {:induction false} MeasureAborts<C>(ops: CacheOps<C>, c: C, addresses: seq<nat>, trace: seq<nat>, i: nat)
    requires forall j :: 0 <= j < |trace| ==> trace[j] < |addresses|
    requires i <= |trace| && Measure(ops, c, addresses, trace[..i]) == Aborted
    ensures Measure(ops, c, addresses, trace) == Aborted
    decreases |trace|
  {
    if i < |trace| {
      var before := trace[..|trace| - 1];
      assert before[..i] == trace[..i];
      MeasureAborts(ops, c, addresses, before, i);
    } else {
      assert trace[..i] == trace;
    }
  }

  /** The indices marked as seen are those of the trace so far. */
  ghost predicate SeenIs(seen: seq<bool>, done: seq<nat>) {
    forall x: nat :: x in done <==> x < |seen| && seen[x]
  }

  lemma SeenMore(seen: seq<bool>, done: seq<nat>, x: nat)
    requires SeenIs(seen, done) && x < |seen|
    ensures SeenIs(seen[x := true], done + [x])
  {}

  lemma MeasureStep<C>(ops: CacheOps<C>, c: C, addresses: seq<nat>, trace: seq<nat>, i: nat, c': C, hits: nat)
    requires forall j :: 0 <= j < |trace| ==> trace[j] < |addresses|
    requires i < |trace| && Measure(ops, c, addresses, trace[..i]) == Running(c', hits)
    ensures var x := trace[i];
            var hit := ops.lookup(c', addresses[x]);
            Measure(ops, c, addresses, trace[..i + 1])
              == if x !in trace[..i] && hit then Aborted
                 else Running(ops.touch(c', addresses[x]), hits + (if x in trace[..i] && hit then 1 else 0))
  {
    assert trace[..i + 1][..i] == trace[..i];
  }

  /** The loop's variables after i accesses. */
  ghost predicate MeasuredTo<C>(
    ops: CacheOps<C>, start: C, addresses: seq<nat>, trace: seq<nat>, i: nat, c: C, seen: seq<bool>, hits: nat)
    requires i <= |trace| && forall j :: 0 <= j < |trace| ==> trace[j] < |addresses|
  {
    SeenIs(seen, trace[..i]) && Measure(ops, start, addresses, trace[..i]) == Running(c, hits)
  }

  lemma MeasuredNext<C>(
    ops: CacheOps<C>, start: C, addresses: seq<nat>, trace: seq<nat>, i: nat, c: C, seen: seq<bool>, hits: nat)
    requires forall j :: 0 <= j < |trace| ==> trace[j] < |addresses|
    requires i < |trace| && trace[i] < |seen| && MeasuredTo(ops, start, addresses, trace, i, c, seen, hits)
    ensures var x, hit := trace[i], ops.lookup(c, addresses[trace[i]]);
            if !seen[x] && hit then Measure(ops, start, addresses, trace) == Aborted
            else MeasuredTo(ops, start, addresses, trace, i + 1, ops.touch(c, addresses[x]), seen[x := true],
                            hits + (if seen[x] && hit then 1 else 0))
  {
    var x := trace[i];
    MeasureStep(ops, start, addresses, trace, i, c, hits);
    SeenMore(seen, trace[..i], x);
    assert trace[..i + 1] == trace[..i] + [x];
    if !seen[x] && ops.lookup(c, addresses[x]) { MeasureAborts(ops, start, addresses, trace, i + 1); }
  }

  lemma MeasuredResized<C>(
    ops: CacheOps<C>, start: C, addresses: seq<nat>, trace: seq<nat>, i: nat, c: C, seen: seq<bool>, hits: nat, n: nat)
    requires forall j :: 0 <= j < |trace| ==> trace[j] < |addresses|
    requires i <= |trace| && MeasuredTo(ops, start, addresses, trace, i, c, seen, hits)
    ensures MeasuredTo(ops, start, addresses, trace, i, c, Resized(seen, n, false), hits)
  {}

  /** Whatever the levels are: the measurement depends on the nearest one alone. */
  method SafeMeasureSequence<C(!new)>(
    mem: SimulatedMemory<C>, trace: seq<nat>, addresses: seq<nat>) returns (r: Option<nat>)
    requires |mem.caches| > 0
    requires forall i :: 0 <= i < |trace| ==> trace[i] < |addresses|
    modifies mem
    ensures match Measure(mem.ops, old(mem.caches[0]), addresses, trace)
            case Aborted => r == None
            case Running(_, hits) => r == Some(hits)
  {
    ghost var start, ops := mem.caches[0], mem.ops;
    var seen: seq<bool> := [];
    var hits := 0;
    for i := 0 to |trace|
      invariant |mem.caches| > 0 && MeasuredTo(ops, start, addresses, trace, i, mem.caches[0], seen, hits)
    {
      var x := trace[i];
      if x >= |seen| {
        MeasuredResized(ops, start, addresses, trace, i, mem.caches[0], seen, hits, 1 + x);
        seen := Resized(seen, 1 + x, false);
      }
      MeasuredNext(ops, start, addresses, trace, i, mem.caches[0], seen, hits);
      var level := AccessNearest(mem, addresses[x]);
      if !seen[x] {
        if level == 0 { return None; }
        seen := seen[x := true];
      } else {
        assert seen[x := true] == seen;
        hits := hits + (if level == 0 then 1 else 0);
      }
    }
    assert trace[..|trace|] == trace;
    return Some(hits);
  }

  /** The measurement of a cache among others is that of the set-associative cache it is viewed as. */
  lemma {:induction false} MeasureViewed<C(!new), S>(
    ops: CacheOps<C>, good: C -> bool, view: C -> Cache<S>, c: C, addresses: seq<nat>, trace: seq<nat>)
    requires Views(ops, good, view) && good(c) && forall i :: 0 <= i < |trace| ==> trace[i] < |addresses|
    ensures match Measure(ops, c, addresses, trace)
            case Aborted => Measure(SetAssociative<S>(), view(c), addresses, trace) == Aborted
            case Running(c', hits) =>
              good(c') && Measure(SetAssociative<S>(), view(c), addresses, trace) == Running(view(c'), hits)
  {
    if trace != [] {
      var before, x := trace[..|trace| - 1], trace[|trace| - 1];
      MeasureViewed(ops, good, view, c, addresses, before);
      match Measure(ops, c, addresses, before)
      case Aborted =>
      case Running(c', _) => assert ViewsAt(ops, good, view, c', addresses[x]);
    }
  }

  // ----- Measuring refines simulating -----

  /** Addresses that differ, share one set and are not cached. */
  ghost predicate Probes<S>(c: Cache<S>, addresses: seq<nat>, index: nat) {
    && (forall i, j :: 0 <= i < j < |addresses| ==> addresses[i] != addresses[j])
    && (forall i :: 0 <= i < |addresses| ==> c.place(addresses[i]) == index && !Lookup(c, addresses[i]))
  }

  /** The measured lines show the simulated ones, with other tags where those are empty. */
  ghost predicate Shows(sim: seq<Line>, real_: seq<Line>, addresses: seq<nat>) {
    |sim| == |real_| && forall w :: 0 <= w < |sim| ==>
      match sim[w]
      case Tag(x) => x < |addresses| && real_[w] == Tag(addresses[x])
      case Empty => forall x :: 0 <= x < |addresses| ==> real_[w] != Tag(addresses[x])
  }

  lemma ShowsFind(sim: seq<Line>, real_: seq<Line>, addresses: seq<nat>, x: nat)
    requires Shows(sim, real_, addresses) && Unique(real_) && Unique(sim) && x < |addresses|
    requires forall i, j :: 0 <= i < j < |addresses| ==> addresses[i] != addresses[j]
    ensures FindWay(sim, x) == FindWay(real_, addresses[x])
  {
    var w, v := FindWay(sim, x), FindWay(real_, addresses[x]);
    if v < |real_| { assert sim[v] == Tag(x); }
    if w < |sim| { FindAt(real_, addresses[x], w); }
  }

  lemma ShowsFill(sim: seq<Line>, real_: seq<Line>, addresses: seq<nat>, x: nat, v: nat)
    requires Shows(sim, real_, addresses) && x < |addresses| && v < |sim|
    ensures Shows(sim[v := Tag(x)], real_[v := Tag(addresses[x])], addresses)
  {}

  lemma ShowsAccess<S(!new)>(
    m: Machine<S>, inv: S -> bool, sim: CacheSet<S>, real_: CacheSet<S>, addresses: seq<nat>, x: nat)
    requires Keeps(m, inv) && Valid(m, inv, sim) && Valid(m, inv, real_) && x < |addresses|
    requires sim.policy == real_.policy && Shows(sim.lines, real_.lines, addresses)
    requires forall i, j :: 0 <= i < j < |addresses| ==> addresses[i] != addresses[j]
    ensures Holds(sim, x) <==> Holds(real_, addresses[x])
    ensures var sim', real' := Access(m, sim, x), Access(m, real_, addresses[x]);
            sim'.policy == real'.policy && Shows(sim'.lines, real'.lines, addresses)
  {
    ShowsFind(sim.lines, real_.lines, addresses, x);
    assert KeepsAt(m, inv, sim.policy);
    if !Holds(sim, x) { ShowsFill(sim.lines, real_.lines, addresses, x, m.victim(sim.policy)); }
  }

  /** What a simulated set holds has been accessed. */
  lemma {:induction false} HeldWasUsed<S(!new)>(m: Machine<S>, inv: S -> bool, p: S, trace: seq<nat>, x: nat)
    requires Keeps(m, inv) && inv(p)
    ensures var s := Run(m, Fresh(m, p), trace);
            Valid(m, inv, s) && (Holds(s, x) ==> x in trace)
  {
    if trace != [] {
      var before, a := trace[..|trace| - 1], trace[|trace| - 1];
      HeldWasUsed(m, inv, p, before, x);
      var s := Run(m, Fresh(m, p), before);
      AccessKeeps(m, inv, s, a);
      if x != a { SetContents(m, inv, s, a, x); }
    }
  }

  lemma {:induction false} MeasureShows<S(!new)>(
    inv: S -> bool, c: Cache<S>, addresses: seq<nat>, index: nat, trace: seq<nat>)
    requires Keeps(c.machine, inv) && ValidCache(inv, c) && index < |c.sets| && Probes(c, addresses, index)
    requires forall i :: 0 <= i < |trace| ==> trace[i] < |addresses|
    ensures var m, r := c.machine, Measure(SetAssociative<S>(), c, addresses, trace);
            var sim := Run(m, Fresh(m, c.sets[index].policy), trace);
            && r.Running? && r.hits == HitCount(m, Fresh(m, c.sets[index].policy), trace)
            && r.cache.machine == m && r.cache.place == c.place && |r.cache.sets| == |c.sets|
            && ValidCache(inv, r.cache)
            && r.cache.sets[index].policy == sim.policy && Shows(sim.lines, r.cache.sets[index].lines, addresses)
  {
    var m, p := c.machine, c.sets[index].policy;
    if trace == [] {
      ProbesAbsent(c, addresses, index);
    } else {
      var before, x := trace[..|trace| - 1], trace[|trace| - 1];
      MeasureShows(inv, c, addresses, index, before);
      var c', sim := Measure(SetAssociative<S>(), c, addresses, before).cache, Run(m, Fresh(m, p), before);
      HeldWasUsed(m, inv, p, before, x);
      ShowsAccess(m, inv, sim, c'.sets[index], addresses, x);
      TouchKeeps(inv, c', addresses[x]);
    }
  }

  lemma ProbesAbsent<S>(c: Cache<S>, addresses: seq<nat>, index: nat)
    requires index < |c.sets| && Probes(c, addresses, index)
    ensures Shows(EmptyLines(|c.sets[index].lines|), c.sets[index].lines, addresses)
  {
    var lines := c.sets[index].lines;
    forall w, x | 0 <= w < |lines| && 0 <= x < |addresses| ensures lines[w] != Tag(addresses[x]) {
      assert SetOf(c, addresses[x]) == c.sets[index];
      assert !(FindWay(lines, addresses[x]) < |lines|);
    }
  }

  /**
   Measuring refines simulating: for different uncached addresses of one set, the measurement
   never aborts and counts what the simulator counts from that set's policy state.
   */
  lemma MeasuredIsSimulated<S(!new)>(
    inv: S -> bool, c: Cache<S>, addresses: seq<nat>, index: nat, trace: seq<nat>)
    requires Keeps(c.machine, inv) && ValidCache(inv, c) && index < |c.sets| && Probes(c, addresses, index)
    requires forall i :: 0 <= i < |trace| ==> trace[i] < |addresses|
    ensures var r := Measure(SetAssociative<S>(), c, addresses, trace);
            r.Running? && r.hits == HitCount(c.machine, Fresh(c.machine, c.sets[index].policy), trace)
  {
    MeasureShows(inv, c, addresses, index, trace);
  }

  // ----- Elimination -----

  /** The candidates whose simulated count is the measured one, in order. */
  function Matching<T(!new)>(candidates: seq<T>, simulated: T -> nat, measured: nat): (r: seq<T>)
    ensures |r| <= |candidates|
    ensures forall t :: t in r <==> t in candidates && simulated(t) == measured
  {
    if candidates == [] then []
    else
      var before, t := candidates[..|candidates| - 1], candidates[|candidates| - 1];
      assert candidates == before + [t];
      if simulated(t) == measured then Matching(before, simulated, measured) + [t]
      else Matching(before, simulated, measured)
  }

  /** The loop's work so far: matching candidates in front, the rest of the input untouched. */
  ghost predicate Sifted<T(!new)>(s: seq<T>, orig: seq<T>, out: nat, first: nat, simulated: T -> nat, measured: nat) {
    && out <= first <= |s| == |orig|
    && s[..out] == Matching(orig[..first], simulated, measured)
    && s[first..] == orig[first..] && multiset(s) == multiset(orig)
  }

  lemma SiftStep<T(!new)>(s: seq<T>, orig: seq<T>, out: nat, first: nat, simulated: T -> nat, measured: nat)
    requires Sifted(s, orig, out, first, simulated, measured) && first < |s|
    ensures if simulated(s[first]) == measured
            then Sifted(Swapped(s, out, first), orig, out + 1, first + 1, simulated, measured)
            else Sifted(s, orig, out, first + 1, simulated, measured)
  {
    assert orig[..first + 1][..first] == orig[..first];
    assert s[first] == s[first..][0] == orig[first];
    assert s[first + 1..] == s[first..][1..];
    if simulated(s[first]) == measured {
      var r := Swapped(s, out, first);
      SwappedMultiset(s, out, first);
      assert r[..out + 1] == s[..out] + [s[first]];
      assert r[first + 1..] == s[first + 1..];
    }
  }

  /** In place: the matching candidates move to the front, in order; nothing is lost. */
  method FilterReplacementPolicies<T(!new)>(a: array<T>, simulated: T -> nat, measured: nat) returns (out: nat)
    modifies a
    ensures out <= a.Length && a[..out] == Matching(old(a[..]), simulated, measured)
    ensures multiset(a[..]) == multiset(old(a[..]))
  {
    out := 0;
    ghost var orig := a[..];
    for first := 0 to a.Length
      invariant Sifted(a[..], orig, out, first, simulated, measured)
    {
      SiftStep(a[..], orig, out, first, simulated, measured);
      if simulated(a[first]) == measured {
        Swap(a, out, first);
        out := out + 1;
      }
    }
    assert orig[..a.Length] == orig;
  }
}
