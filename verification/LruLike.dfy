/**
 Policies that are LRU with a linear fill: up to a level they fill way after way, from then on they
 replace the least recent way. Whatever such a policy starts with, it hits like LRU.
 */
module LruLikes {
  import opened Collections
  import opened Machines
  import opened Orders
  import opened CacheSets
  import opened LruStack

  /** The recency order and the fill level of a policy state. */
  datatype Reading<!S> = Reading(order: S -> seq<nat>, level: S -> nat)

  ghost predicate LruLike<S(!new)>(m: Machine<S>, inv: S -> bool, r: Reading<S>) {
    forall s {:trigger LruLikeAt(m, r, s)} :: inv(s) ==> LruLikeAt(m, r, s)
  }

  ghost predicate LruLikeAt<S>(m: Machine<S>, r: Reading<S>, s: S) {
    && IsOrder(r.order(s), m.ways) && r.level(s) <= m.ways
    && (forall w: nat :: w < m.ways ==> UsesWay(r, s, m.hit(s, w), w) && r.level(m.hit(s, w)) == r.level(s))
    && (r.level(s) < m.ways ==>
          m.victim(s) == r.level(s) && UsesWay(r, s, m.miss(s), r.level(s)) && r.level(m.miss(s)) == r.level(s) + 1)
    && (r.level(s) == m.ways ==>
          m.victim(s) == LeastRecent(r.order(s)) && r.order(m.miss(s)) == Recycle(r.order(s))
          && r.level(m.miss(s)) == m.ways)
  }

  /** The way becomes the most recent one. */
  ghost predicate UsesWay<S>(r: Reading<S>, s: S, s': S, w: nat) {
    r.order(s') == Touch(r.order(s), w)
  }

  /** The ways from the level on are empty, as long as not all were filled. */
  ghost predicate EmptyFrom(lines: seq<Line>, level: nat) {
    level < |lines| ==> forall w :: level <= w < |lines| ==> lines[w] == Empty
  }

  lemma FillIndex(order: seq<nat>, lines: seq<Line>, stack: seq<nat>, a: nat, i: nat, j: nat)
    requires Distinct(order) && Mirrors(order, lines, stack) && |stack| <= i < |order| && j < |order|
    ensures var o', l' := ToFront(order, i), lines[order[i] := Tag(a)];
            o'[j] < |lines| && l'[o'[j]] == if j < |stack| + 1 then Tag(([a] + stack)[j]) else Empty
  {
    var l := if j == 0 then i else if j <= i then j - 1 else j;
    assert ToFront(order, i)[j] == order[l];
    assert l != i ==> order[l] != order[i];
  }

  lemma EmptyIsBelow(order: seq<nat>, n: nat, lines: seq<Line>, stack: seq<nat>, a: nat, v: nat)
    requires IsOrder(order, n) && Mirrors(order, lines, stack) && v < n && lines[v] == Empty
    requires a in stack ==> Position(stack, a) >= n
    ensures |stack| <= Position(order, v) && a !in stack
  {
    assert order[Position(order, v)] == v;
  }

  /** Filling an empty way puts it and the address on top. */
  lemma MirrorFill(order: seq<nat>, n: nat, lines: seq<Line>, stack: seq<nat>, a: nat, v: nat)
    requires IsOrder(order, n) && Mirrors(order, lines, stack)
    requires a in stack ==> Position(stack, a) >= n
    requires v < n && lines[v] == Empty
    ensures Mirrors(Touch(order, v), lines[v := Tag(a)], Push(stack, a))
  {
    EmptyIsBelow(order, n, lines, stack, a, v);
    OrderDistinct(order, n);
    var i := Position(order, v);
    var o', l', s' := ToFront(order, i), lines[v := Tag(a)], [a] + stack;
    forall j | 0 <= j < n ensures o'[j] < n && l'[o'[j]] == if j < |s'| then Tag(s'[j]) else Empty {
      FillIndex(order, lines, stack, a, i, j);
    }
  }

  ghost predicate LikeStack<S>(m: Machine<S>, inv: S -> bool, r: Reading<S>, s: CacheSet<S>, stack: seq<nat>) {
    && inv(s.policy) && |s.lines| == m.ways && Mirrors(r.order(s.policy), s.lines, stack)
    && EmptyFrom(s.lines, r.level(s.policy))
  }

  lemma LikeStackHit<S(!new)>(
    m: Machine<S>, inv: S -> bool, r: Reading<S>, s: CacheSet<S>, stack: seq<nat>, a: nat, w: nat)
    requires LruLikeAt(m, r, s.policy) && LikeStack(m, inv, r, s, stack) && Distinct(stack)
    requires a in stack && Position(stack, a) < m.ways && w == r.order(s.policy)[Position(stack, a)] < m.ways
    requires inv(m.hit(s.policy, w))
    ensures LikeStack(m, inv, r, CacheSet(m.hit(s.policy, w), s.lines), Push(stack, a))
  {
    MirrorHit(r.order(s.policy), m.ways, s.lines, stack, a);
    assert UsesWay(r, s.policy, m.hit(s.policy, w), w);
  }

  lemma StillEmpty(lines: seq<Line>, level: nat, a: nat)
    requires EmptyFrom(lines, level) && level < |lines|
    ensures lines[level] == Empty && EmptyFrom(lines[level := Tag(a)], level + 1)
  {}

  lemma LikeStackFill<S>(m: Machine<S>, inv: S -> bool, r: Reading<S>, s: CacheSet<S>, stack: seq<nat>, a: nat)
    requires LruLikeAt(m, r, s.policy) && LikeStack(m, inv, r, s, stack) && r.level(s.policy) < m.ways
    requires m.victim(s.policy) < m.ways && (a in stack ==> Position(stack, a) >= m.ways) && inv(m.miss(s.policy))
    ensures LikeStack(m, inv, r, CacheSet(m.miss(s.policy), s.lines[m.victim(s.policy) := Tag(a)]), Push(stack, a))
  {
    StillEmpty(s.lines, r.level(s.policy), a);
    MirrorFill(r.order(s.policy), m.ways, s.lines, stack, a, r.level(s.policy));
    assert UsesWay(r, s.policy, m.miss(s.policy), r.level(s.policy));
  }

  /** A miss on a full cache: p is the state after it. */
  lemma LikeStackFull<S>(m: Machine<S>, inv: S -> bool, r: Reading<S>, p: S, lines: seq<Line>, stack: seq<nat>)
    requires inv(p) && |lines| == m.ways && r.level(p) == m.ways && Mirrors(r.order(p), lines, stack)
    ensures LikeStack(m, inv, r, CacheSet(p, lines), stack)
  {}

  lemma {:induction false} LikeStackMiss<S>(
    m: Machine<S>, inv: S -> bool, r: Reading<S>, s: CacheSet<S>, stack: seq<nat>, a: nat)
    requires m.ways > 0 && LruLikeAt(m, r, s.policy) && LikeStack(m, inv, r, s, stack) && Distinct(stack)
    requires r.level(s.policy) == m.ways && m.victim(s.policy) < m.ways
    requires (a in stack ==> Position(stack, a) >= m.ways) && inv(m.miss(s.policy))
    ensures LikeStack(m, inv, r, CacheSet(m.miss(s.policy), s.lines[m.victim(s.policy) := Tag(a)]), Push(stack, a))
  {
    var order := r.order(s.policy);
    assert m.victim(s.policy) == order[m.ways - 1] && r.order(m.miss(s.policy)) == Recycle(order);
    MirrorMiss(order, m.ways, s.lines, stack, a);
    LikeStackFull(m, inv, r, m.miss(s.policy), s.lines[m.victim(s.policy) := Tag(a)], Push(stack, a));
  }

  lemma LikeStackAccess<S(!new)>(
    m: Machine<S>, inv: S -> bool, r: Reading<S>, s: CacheSet<S>, stack: seq<nat>, a: nat)
    requires m.ways > 0 && Keeps(m, inv) && LruLike(m, inv, r) && LikeStack(m, inv, r, s, stack) && Distinct(stack)
    ensures LikeStack(m, inv, r, Access(m, s, a), Push(stack, a))
  {
    assert LruLikeAt(m, r, s.policy) && KeepsAt(m, inv, s.policy);
    MirrorHolds(r.order(s.policy), m.ways, s.lines, stack, a);
    if Holds(s, a) {
      LikeStackHit(m, inv, r, s, stack, a, FindWay(s.lines, a));
    } else if r.level(s.policy) < m.ways {
      LikeStackFill(m, inv, r, s, stack, a);
    } else {
      LikeStackMiss(m, inv, r, s, stack, a);
    }
  }

  lemma {:induction false} LikeStackRun<S(!new)>(
    m: Machine<S>, inv: S -> bool, r: Reading<S>, p: S, trace: seq<nat>)
    requires m.ways > 0 && Keeps(m, inv) && LruLike(m, inv, r) && inv(p)
    ensures LikeStack(m, inv, r, Run(m, Fresh(m, p), trace), Recency(trace))
  {
    if trace == [] {
      assert LruLikeAt(m, r, p);
    } else {
      var before, a := trace[..|trace| - 1], trace[|trace| - 1];
      LikeStackRun(m, inv, r, p, before);
      RecencyDistinct(before);
      LikeStackAccess(m, inv, r, Run(m, Fresh(m, p), before), Recency(before), a);
    }
  }

  /** Such a policy holds what LRU would: the last addresses that were used, one per way. */
  lemma LikeLruHit<S(!new)>(m: Machine<S>, inv: S -> bool, r: Reading<S>, p: S, trace: seq<nat>, a: nat)
    requires m.ways > 0 && Keeps(m, inv) && LruLike(m, inv, r) && inv(p)
    ensures Holds(Run(m, Fresh(m, p), trace), a) <==> a in trace && |Since(trace, a)| < m.ways
  {
    LikeStackRun(m, inv, r, p, trace);
    var s := Run(m, Fresh(m, p), trace);
    assert LruLikeAt(m, r, s.policy);
    RecencyDistinct(trace);
    MirrorHolds(r.order(s.policy), m.ways, s.lines, Recency(trace), a);
    if a in trace { StackDistance(trace, a); }
  }

  /** So its count does not depend on its start. */
  lemma {:induction false} LikeLruStart<S(!new)>(
    m: Machine<S>, inv: S -> bool, r: Reading<S>, p: S, q: S, trace: seq<nat>)
    requires m.ways > 0 && Keeps(m, inv) && LruLike(m, inv, r) && inv(p) && inv(q)
    ensures HitCount(m, Fresh(m, p), trace) == HitCount(m, Fresh(m, q), trace)
  {
    if trace != [] {
      var before, a := trace[..|trace| - 1], trace[|trace| - 1];
      LikeLruStart(m, inv, r, p, q, before);
      LikeLruHit(m, inv, r, p, before, a);
      LikeLruHit(m, inv, r, q, before, a);
    }
  }
}
