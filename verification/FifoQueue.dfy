/**
 FIFO as a queue: an address is cached exactly as long as fewer than `ways` misses have come since
 the miss that brought it in, whatever hits come between. That tells FIFO from LRU.
 */
module FifoQueues {
  import opened Collections
  import opened Machines
  import opened Orders
  import opened Policies
  import opened CacheSets
  import opened Fills
  import opened LruStack
  import opened Measurements

  /** The addresses that missed, the latest first. */
  function Arrivals<S>(m: Machine<S>, s: CacheSet<S>, trace: seq<nat>): seq<nat> {
    if trace == [] then []
    else
      var before, a := trace[..|trace| - 1], trace[|trace| - 1];
      if Holds(Run(m, s, before), a) then Arrivals(m, s, before) else [a] + Arrivals(m, s, before)
  }

  /** The number of misses after the one that last brought the address in, if one did. */
  function MissesSince<S>(m: Machine<S>, s: CacheSet<S>, trace: seq<nat>, a: nat): Option<nat> {
    if trace == [] then None
    else
      var before, b := trace[..|trace| - 1], trace[|trace| - 1];
      if Holds(Run(m, s, before), b) then MissesSince(m, s, before, a)
      else if b == a then Some(0)
      else
        match MissesSince(m, s, before, a)
        case None => None
        case Some(k) => Some(k + 1)
  }

  /** Those are the addresses ahead of it in the queue. */
  lemma {:induction false} MissesAhead<S>(m: Machine<S>, s: CacheSet<S>, trace: seq<nat>, a: nat)
    ensures var q := Arrivals(m, s, trace);
            MissesSince(m, s, trace, a) == if a in q then Some(Position(q, a)) else None
  {
    if trace != [] {
      var before, b := trace[..|trace| - 1], trace[|trace| - 1];
      MissesAhead(m, s, before, a);
      if !Holds(Run(m, s, before), b) { assert ([b] + Arrivals(m, s, before))[1..] == Arrivals(m, s, before); }
    }
  }

  /** Read along the order, the lines are the front of the queue. */
  lemma QueueHolds(order: seq<nat>, n: nat, lines: seq<Line>, q: seq<nat>, a: nat)
    requires IsOrder(order, n) && Mirrors(order, lines, q)
    ensures FindWay(lines, a) < n <==> a in q && Position(q, a) < n
  {
    var w := FindWay(lines, a);
    if a in q && Position(q, a) < n { assert lines[order[Position(q, a)]] == Tag(a); }
    if w < n {
      var i := Position(order, w);
      assert lines[order[i]] == Tag(a) && q[i] == a;
      PositionAtMost(q, i);
    }
  }

  lemma {:induction false} PositionAtMost(q: seq<nat>, i: nat)
    requires i < |q|
    ensures q[i] in q && Position(q, q[i]) <= i
    decreases |q|
  {
    if q[0] != q[i] { PositionAtMost(q[1..], i - 1); }
  }

  lemma QueueMiss(order: seq<nat>, n: nat, lines: seq<Line>, q: seq<nat>, a: nat)
    requires n > 0 && IsOrder(order, n) && Mirrors(order, lines, q)
    ensures Mirrors(Recycle(order), lines[order[n - 1] := Tag(a)], [a] + q)
  {
    OrderDistinct(order, n);
    MirrorRecycled(order, lines, q, [a] + q, a, n);
  }

  lemma QueueAccess(n: nat, s: CacheSet<seq<nat>>, q: seq<nat>, a: nat)
    requires n > 0 && IsOrder(s.policy, n) && Mirrors(s.policy, s.lines, q)
    ensures var s' := Access(FifoMachine(n), s, a);
            IsOrder(s'.policy, n) && Mirrors(s'.policy, s'.lines, if Holds(s, a) then q else [a] + q)
  {
    if !Holds(s, a) {
      QueueMiss(s.policy, n, s.lines, q, a);
      RecycleKeepsOrder(s.policy, n);
    }
  }

  lemma {:induction false} FifoMirrors(n: nat, o: seq<nat>, trace: seq<nat>)
    requires n > 0 && IsOrder(o, n)
    ensures var m := FifoMachine(n);
            var s := Run(m, Fresh(m, o), trace);
            IsOrder(s.policy, n) && Mirrors(s.policy, s.lines, Arrivals(m, Fresh(m, o), trace))
  {
    if trace != [] {
      var m := FifoMachine(n);
      var before, a := trace[..|trace| - 1], trace[|trace| - 1];
      FifoMirrors(n, o, before);
      QueueAccess(n, Run(m, Fresh(m, o), before), Arrivals(m, Fresh(m, o), before), a);
    }
  }

  /**
   Under FIFO an address is cached exactly if fewer than n misses have come since the miss that last
   brought it in, whatever hits come between and whatever order FIFO started with.
   */
  lemma FifoHit(n: nat, o: seq<nat>, trace: seq<nat>, a: nat)
    requires n > 0 && IsOrder(o, n)
    ensures var m := FifoMachine(n);
            var since := MissesSince(m, Fresh(m, o), trace, a);
            Holds(Run(m, Fresh(m, o), trace), a) <==> since.Some? && since.value < n
  {
    var m := FifoMachine(n);
    FifoMirrors(n, o, trace);
    var s := Run(m, Fresh(m, o), trace);
    QueueHolds(s.policy, n, s.lines, Arrivals(m, Fresh(m, o), trace), a);
    MissesAhead(m, Fresh(m, o), trace, a);
  }

  // ----- A trace that tells FIFO from LRU -----

  /** All ways are filled, the first address is used again, one more comes in, and the first is used once more. */
  function Telling(n: nat): seq<nat> { Numbers(n) + [0] + [n] + [0] }

  lemma LastNumber(k: nat)
    requires k > 0
    ensures Numbers(k) == Numbers(k - 1) + [k - 1] && Numbers(k)[..k - 1] == Numbers(k - 1) && k - 1 !in Numbers(k - 1)
  {}

  /** After the first k numbers, address 0 is the oldest of them in the queue. */
  lemma {:induction false} FifoAges(n: nat, o: seq<nat>, k: nat)
    requires 0 < k && 0 < n && IsOrder(o, n)
    ensures MissesSince(FifoMachine(n), Fresh(FifoMachine(n), o), Numbers(k), 0) == Some(k - 1)
  {
    LastNumber(k);
    OrderMachinesKeep(n);
    HeldWasUsed(FifoMachine(n), OrderOf(n), o, Numbers(k - 1), k - 1);
    if k > 1 { FifoAges(n, o, k - 1); }
  }

  lemma {:induction false} SinceZero(k: nat)
    requires k > 0
    ensures Since(Numbers(k), 0) <= UpTo(k) - {0} && 0 in Numbers(k)
  {
    LastNumber(k);
    if k > 1 { SinceZero(k - 1); }
  }

  lemma FewSinceZero(n: nat)
    requires n > 0
    ensures |Since(Numbers(n), 0)| < n && 0 in Numbers(n)
  {
    SinceZero(n);
    UpToSize(n);
    assert UpTo(n) == (UpTo(n) - {0}) + {0};
    FewerMembers(Since(Numbers(n), 0), UpTo(n) - {0});
  }

  lemma FewerMembers(a: set<nat>, b: set<nat>)
    requires a <= b
    ensures |a| <= |b|
  {
    assert b == a + (b - a);
  }

  lemma SinceMore(trace: seq<nat>, b: nat, a: nat)
    ensures Since(trace + [b], a) == if b == a then {} else Since(trace, a) + {b}
  {
    assert (trace + [b])[..|trace|] == trace;
  }

  lemma MissesSinceMore<S>(m: Machine<S>, s: CacheSet<S>, trace: seq<nat>, b: nat, a: nat)
    ensures Holds(Run(m, s, trace), b) ==> MissesSince(m, s, trace + [b], a) == MissesSince(m, s, trace, a)
    ensures !Holds(Run(m, s, trace), b) && b != a && MissesSince(m, s, trace, a).Some? ==>
              MissesSince(m, s, trace + [b], a) == Some(MissesSince(m, s, trace, a).value + 1)
  {
    assert (trace + [b])[..|trace|] == trace;
  }

  /** The new address has not been used before. */
  lemma NewMisses<S(!new)>(m: Machine<S>, inv: S -> bool, p: S, n: nat)
    requires Keeps(m, inv) && inv(p)
    ensures !Holds(Run(m, Fresh(m, p), Numbers(n) + [0]), n) || n == 0
    ensures HitCount(m, Fresh(m, p), Numbers(n)) == 0
  {
    HeldWasUsed(m, inv, p, Numbers(n) + [0], n);
    NumbersAreDistinct(n);
    FillRun(m, inv, p, Numbers(n));
  }

  lemma CountTelling<S>(m: Machine<S>, s: CacheSet<S>, n: nat)
    requires HitCount(m, s, Numbers(n)) == 0 && Holds(Run(m, s, Numbers(n)), 0)
    requires !Holds(Run(m, s, Numbers(n) + [0]), n)
    ensures HitCount(m, s, Telling(n)) == if Holds(Run(m, s, Numbers(n) + [0] + [n]), 0) then 2 else 1
  {
    RunMore(m, s, Numbers(n), 0);
    RunMore(m, s, Numbers(n) + [0], n);
    RunMore(m, s, Numbers(n) + [0] + [n], 0);
  }

  /** Of two uses of address 0, the second after one more address, FIFO hits once ... */
  lemma FifoTold(n: nat, o: seq<nat>)
    requires n > 1 && IsOrder(o, n)
    ensures HitCount(FifoMachine(n), Fresh(FifoMachine(n), o), Telling(n)) == 1
  {
    var m, t := FifoMachine(n), Numbers(n);
    var s := Fresh(m, o);
    OrderMachinesKeep(n);
    NewMisses(m, OrderOf(n), o, n);
    FifoAges(n, o, n);
    FifoHit(n, o, t, 0);
    MissesSinceMore(m, s, t, 0, 0);
    MissesSinceMore(m, s, t + [0], n, 0);
    FifoHit(n, o, t + [0] + [n], 0);
    CountTelling(m, s, n);
  }

  /** ... and LRU twice, for every number of ways above one. */
  lemma LruTold(n: nat, o: seq<nat>)
    requires n > 1 && IsOrder(o, n)
    ensures HitCount(LruMachine(n), Fresh(LruMachine(n), o), Telling(n)) == 2
  {
    var m, t := LruMachine(n), Numbers(n);
    OrderMachinesKeep(n);
    NewMisses(m, OrderOf(n), o, n);
    FewSince(n, t, t + [0] + [n]);
    LruHit(n, o, t, 0);
    LruHit(n, o, t + [0] + [n], 0);
    CountTelling(m, Fresh(m, o), n);
  }

  lemma FewSince(n: nat, t: seq<nat>, u: seq<nat>)
    requires n > 1 && t == Numbers(n) && u == t + [0] + [n]
    ensures 0 in t && |Since(t, 0)| < n && 0 in u && |Since(u, 0)| < n
  {
    FewSinceZero(n);
    SinceMore(t, 0, 0);
    SinceMore(t + [0], n, 0);
    assert Since(u, 0) == {n};
  }
}
