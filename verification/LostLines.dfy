/**
 Policies that fill the empty ways of a set first, and a trace that shows that a policy does not.
 */
module LostLines {
  import opened Collections
  import opened Machines
  import opened CacheSets
  import opened SetAssociativeCaches
  import opened Measurements
  import opened Fills

  // ----- A policy that fills way after way -----

  /** Below the number of ways, the level is the next victim; a miss raises it, a hit does not. */
  ghost predicate FillsInOrder<S(!new)>(m: Machine<S>, inv: S -> bool, level: S -> nat) {
    forall s {:trigger FillsInOrderAt(m, level, s)} :: inv(s) && level(s) < m.ways ==> FillsInOrderAt(m, level, s)
  }

  ghost predicate FillsInOrderAt<S>(m: Machine<S>, level: S -> nat, s: S) {
    && m.victim(s) == level(s) && level(m.miss(s)) == level(s) + 1
  }

  ghost predicate HitsKeepLevel<S(!new)>(m: Machine<S>, inv: S -> bool, level: S -> nat) {
    forall s, way: nat {:trigger m.hit(s, way)} :: inv(s) && way < m.ways ==> level(m.hit(s, way)) == level(s)
  }

  /** The ways below the level are in use, the others are empty. */
  ghost predicate InUse(lines: seq<Line>, level: nat) {
    level <= |lines| && forall w :: 0 <= w < |lines| ==> (lines[w].Tag? <==> w < level)
  }

  ghost predicate HoldsAll<S>(s: CacheSet<S>, trace: seq<nat>) {
    forall a :: a in trace ==> Holds(s, a)
  }

  lemma UsedMore(lines: seq<Line>, level: nat, a: nat)
    requires InUse(lines, level) && level < |lines|
    ensures InUse(lines[level := Tag(a)], level + 1)
  {}

  lemma HeldStays<S(!new)>(m: Machine<S>, inv: S -> bool, s: CacheSet<S>, a: nat, x: nat)
    requires Keeps(m, inv) && Valid(m, inv, s) && Holds(s, x) && !Holds(s, a)
    requires m.victim(s.policy) < |s.lines| && s.lines[m.victim(s.policy)] == Empty
    ensures Holds(Access(m, s, a), x)
  {
    SetContents(m, inv, s, a, x);
  }

  /** The set after a trace with no more addresses than ways: all of them are there. */
  ghost predicate KeptAll<S>(m: Machine<S>, inv: S -> bool, level: S -> nat, p: S, trace: seq<nat>) {
    var s := Run(m, Fresh(m, p), trace);
    && Valid(m, inv, s) && level(s.policy) == |Members(trace)| && InUse(s.lines, |Members(trace)|)
    && HoldsAll(s, trace) && ReusesHit(m, p, trace)
  }

  lemma KeepsReused<S(!new)>(m: Machine<S>, inv: S -> bool, level: S -> nat, p: S, trace: seq<nat>, a: nat)
    requires Keeps(m, inv) && HitsKeepLevel(m, inv, level) && KeptAll(m, inv, level, p, trace) && a in trace
    ensures KeptAll(m, inv, level, p, trace + [a])
  {
    var s := Run(m, Fresh(m, p), trace);
    RunMore(m, Fresh(m, p), trace, a);
    MembersMore(trace, a);
    assert Members(trace) + {a} == Members(trace);
    AccessKeeps(m, inv, s, a);
    assert Holds(s, a);
    assert Access(m, s, a) == CacheSet(m.hit(s.policy, FindWay(s.lines, a)), s.lines);
  }

  lemma KeepsNew<S(!new)>(m: Machine<S>, inv: S -> bool, level: S -> nat, p: S, trace: seq<nat>, a: nat)
    requires Keeps(m, inv) && inv(p) && FillsInOrder(m, inv, level) && KeptAll(m, inv, level, p, trace)
    requires a !in trace && |Members(trace)| < m.ways
    ensures KeptAll(m, inv, level, p, trace + [a])
  {
    var s := Run(m, Fresh(m, p), trace);
    HeldWasUsed(m, inv, p, trace, a);
    RunMore(m, Fresh(m, p), trace, a);
    MembersMore(trace, a);
    assert a !in Members(trace);
    AccessKeeps(m, inv, s, a);
    assert FillsInOrderAt(m, level, s.policy);
    UsedMore(s.lines, level(s.policy), a);
    forall x | x in trace + [a] ensures Holds(Access(m, s, a), x) {
      if x != a { HeldStays(m, inv, s, a, x); }
    }
  }

  lemma {:induction false} KeepsAll<S(!new)>(m: Machine<S>, inv: S -> bool, level: S -> nat, p: S, trace: seq<nat>)
    requires Keeps(m, inv) && inv(p) && FillsInOrder(m, inv, level) && HitsKeepLevel(m, inv, level)
    requires level(p) == 0 && |Members(trace)| <= m.ways
    ensures KeptAll(m, inv, level, p, trace)
  {
    if trace == [] {
      assert Members(trace) == {};
    } else {
      var before, a := trace[..|trace| - 1], trace[|trace| - 1];
      assert trace == before + [a];
      MembersMore(before, a);
      if a in before {
        assert Members(before) + {a} == Members(before);
        KeepsAll(m, inv, level, p, before);
        KeepsReused(m, inv, level, p, before, a);
      } else {
        assert a !in Members(before);
        KeepsAll(m, inv, level, p, before);
        KeepsNew(m, inv, level, p, before, a);
      }
    }
  }

  // ----- A policy that can be steered away from the last empty way -----

  /** Whatever way is empty, a hit on another way makes the victim a third one. */
  ghost predicate Steers<S>(m: Machine<S>, s: S) {
    forall y: nat :: y < m.ways ==> SteersFrom(m, s, y)
  }

  ghost predicate SteersFrom<S>(m: Machine<S>, s: S, y: nat) {
    exists z: nat :: z < m.ways && z != y && m.victim(m.hit(s, z)) != y
  }

  lemma OnlyOther(a: set<nat>, b: set<nat>) returns (y: nat)
    requires a <= b && |a| + 1 == |b|
    ensures y in b && forall x :: x in b && x != y ==> x in a
  {
    assert |b - a| == 1;
    y :| y in b - a;
    SubsetOfSameSize({y}, b - a);
    forall x | x in b && x != y ensures x in a { assert x !in b - a; }
  }

  /** Different numbers below n + 1, n of them: one is missing. */
  lemma OneMissing(ways: seq<nat>, n: nat) returns (y: nat)
    requires |ways| == n && (forall i :: 0 <= i < n ==> ways[i] <= n) && Distinct(ways)
    ensures y <= n && forall w: nat :: w <= n && w != y ==> w in ways
  {
    SetOfDistinct(ways);
    UpToSize(n + 1);
    y := OnlyOther(Members(ways), UpTo(n + 1));
    forall w: nat | w <= n && w != y ensures w in ways { assert w in Members(ways); }
  }

  /** All ways but y hold one of the addresses below n, in the order of the given ways. */
  ghost predicate AllBut(lines: seq<Line>, ways: seq<nat>, n: nat, y: nat) {
    && |lines| == n + 1 && Unique(lines) && |ways| == n && y <= n
    && (forall i :: 0 <= i < n ==> ways[i] <= n && lines[ways[i]] == Tag(i))
    && (forall w: nat :: w <= n && w != y ==> w in ways)
  }

  /** With one way empty: a hit steers the policy to a line in use, which is lost. */
  lemma SteeredAway<S(!new)>(m: Machine<S>, inv: S -> bool, s: CacheSet<S>, ways: seq<nat>, n: nat, y: nat)
    returns (a: nat, lost: nat)
    requires Keeps(m, inv) && Valid(m, inv, s) && m.ways == n + 1 && AllBut(s.lines, ways, n, y) && Lacks(s.lines, n)
    requires SteersFrom(m, s.policy, y)
    ensures a < n && lost < n && !Holds(Access(m, Access(m, s, a), n), lost)
  {
    var z: nat :| z < m.ways && z != y && m.victim(m.hit(s.policy, z)) != y;
    assert z in ways;
    a :| 0 <= a < n && ways[a] == z;
    FindAt(s.lines, a, z);
    AccessKeeps(m, inv, s, a);
    var t := Access(m, s, a);
    assert t == CacheSet(m.hit(s.policy, z), s.lines);
    assert KeepsAt(m, inv, t.policy);
    var v := m.victim(t.policy);
    assert v in ways;
    lost :| 0 <= lost < n && ways[lost] == v;
    LosesLine(m, t, v, n, lost);
  }

  lemma LosesLine<S>(m: Machine<S>, t: CacheSet<S>, v: nat, x: nat, lost: nat)
    requires v < |t.lines| && m.victim(t.policy) == v && Unique(t.lines) && Lacks(t.lines, x)
    requires t.lines[v] == Tag(lost) && lost != x
    ensures !Holds(Access(m, t, x), lost)
  {
    FindAt(t.lines, lost, v);
    assert Access(m, t, x).lines == t.lines[v := Tag(x)];
    HoldsIff(Access(m, t, x).lines, lost);
  }

  /** Fills of all ways but one: either they lose an address, or they leave exactly one way empty. */
  lemma FillAllButOne<S(!new)>(m: Machine<S>, inv: S -> bool, p: S, n: nat) returns (y: nat)
    requires Keeps(m, inv) && inv(p) && m.ways == n + 1
    requires forall i: nat :: i < n ==> LastIn(Victims(m, p, n), i)
    ensures var s := Run(m, Fresh(m, p), Numbers(n));
            && Valid(m, inv, s) && s.policy == Iterate(m.miss, p, n)
            && AllBut(s.lines, Victims(m, p, n), n, y) && Lacks(s.lines, n)
  {
    var ways, xs := Victims(m, p, n), Numbers(n);
    NumbersAreDistinct(n);
    FillRun(m, inv, p, xs);
    HeldWasUsed(m, inv, p, xs, n);
    var s := Run(m, Fresh(m, p), xs);
    forall i: nat | i < n ensures s.lines[ways[i]] == Tag(i) { LinesHold(m.ways, ways, xs, i); }
    assert Distinct(ways) by {
      forall i, j | 0 <= i < j < n ensures ways[i] != ways[j] { assert LastIn(ways, i); }
    }
    y := OneMissing(ways, n);
  }

  lemma {:induction false} TraceMembers(n: nat, a: nat, lost: nat)
    requires a < n && lost < n
    ensures |Members(Numbers(n) + [a] + [n])| == n + 1 && lost in Numbers(n) + [a] + [n]
  {
    NumbersAndOne(n, a);
    MembersMore(Numbers(n) + [a], n);
    NumbersAreDistinct(n);
    assert lost in Members(Numbers(n));
  }

  lemma LosesBySteering<S(!new)>(m: Machine<S>, inv: S -> bool, p: S, n: nat) returns (trace: seq<nat>)
    requires Keeps(m, inv) && inv(p) && m.ways == n + 1 && Steers(m, Iterate(m.miss, p, n))
    requires forall i: nat :: i < n ==> LastIn(Victims(m, p, n), i)
    ensures |Members(trace)| <= n + 1 && !ReusesHit(m, p, trace) && forall i :: 0 <= i < |trace| ==> trace[i] <= n
  {
    var y := FillAllButOne(m, inv, p, n);
    var s := Run(m, Fresh(m, p), Numbers(n));
    assert SteersFrom(m, s.policy, y);
    var a, lost := SteeredAway(m, inv, s, Victims(m, p, n), n, y);
    RunMore(m, Fresh(m, p), Numbers(n), a);
    RunMore(m, Fresh(m, p), Numbers(n) + [a], n);
    TraceMembers(n, a, lost);
    LostReuse(m, inv, p, Numbers(n) + [a] + [n], lost);
    trace := Numbers(n) + [a] + [n] + [lost];
    TraceBound(n, a, lost);
  }

  lemma TraceBound(n: nat, a: nat, lost: nat)
    requires a < n && lost < n
    ensures forall i :: 0 <= i < |Numbers(n) + [a] + [n] + [lost]| ==> (Numbers(n) + [a] + [n] + [lost])[i] <= n
  {}

  /** A steerable policy has a trace with no more addresses than ways on which a reuse misses. */
  lemma LosesOne<S(!new)>(m: Machine<S>, inv: S -> bool, p: S) returns (trace: seq<nat>)
    requires Keeps(m, inv) && inv(p) && m.ways > 0 && Steers(m, Iterate(m.miss, p, m.ways - 1))
    ensures |Members(trace)| <= m.ways && !ReusesHit(m, p, trace) && forall i :: 0 <= i < |trace| ==> trace[i] < m.ways
  {
    var n := m.ways - 1;
    if i: nat :| i < n && !LastIn(Victims(m, p, n), i) {
      FillThenReuse(m, inv, p, n, i);
      trace := Numbers(n) + [i];
    } else {
      trace := LosesBySteering(m, inv, p, n);
    }
  }
}
