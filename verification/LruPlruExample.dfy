/**
 A trace on which LRU over a nested policy with two groups, once filled, hits less often than a
 fresh simulation of it: one address keeps its group recent, so that all others share the other.
 */
module LruPlruExample {
  import opened Collections
  import opened Words
  import opened Machines
  import opened Orders
  import opened Policies
  import opened LruWrapped
  import opened CacheSets
  import opened Fills
  import opened WrappedSettling
  import opened LruPlruStarts
  import T = PlruTrees

  // ----- Any policy -----

  /** Addresses 0 and 1, then k times address 1 and a new one. */
  function Alternating(k: nat): seq<nat> {
    if k == 0 then [0, 1] else Alternating(k - 1) + [1] + [k + 1]
  }

  /** The policy before the new address of round k, if address 1 is in way b. */
  function Before<S>(m: Machine<S>, p: S, b: nat, k: nat): S {
    if k == 0 then p
    else if k == 1 then m.hit(m.miss(m.miss(p)), b)
    else m.hit(m.miss(Before(m, p, b, k - 1)), b)
  }

  /** Address 1 is in way b, address 0 nowhere but in way a, and no address is above the bound. */
  ghost predicate Held(lines: seq<Line>, a: nat, b: nat, bound: nat) {
    && a < |lines| && b < |lines| && a != b && lines[b] == Tag(1)
    && (forall w :: 0 <= w < |lines| && w != a ==> lines[w] != Tag(0))
    && (forall w :: 0 <= w < |lines| && lines[w].Tag? ==> lines[w].address <= bound)
  }

  lemma HeldMore(lines: seq<Line>, a: nat, b: nat, bound: nat, v: nat)
    requires Held(lines, a, b, bound) && v < |lines| && v != b && bound > 0
    ensures Held(lines[v := Tag(bound + 1)], a, b, bound + 1) && Lacks(lines, bound + 1)
    ensures v == a ==> Lacks(lines[v := Tag(bound + 1)], 0)
  {}

  /** The set after round k. */
  ghost predicate Alternated<S>(m: Machine<S>, inv: S -> bool, a: nat, b: nat, k: nat, next: S, s: CacheSet<S>) {
    Valid(m, inv, s) && m.hit(s.policy, b) == next && Held(s.lines, a, b, k + 1)
  }

  lemma FillOne<S(!new)>(m: Machine<S>, inv: S -> bool, s: CacheSet<S>, v: nat, x: nat)
    requires Keeps(m, inv) && Valid(m, inv, s) && m.victim(s.policy) == v && Lacks(s.lines, x)
    ensures v < |s.lines| && Access(m, s, x) == CacheSet(m.miss(s.policy), s.lines[v := Tag(x)])
    ensures Valid(m, inv, Access(m, s, x))
  {
    AccessKeeps(m, inv, s, x);
    assert KeepsAt(m, inv, s.policy);
  }

  lemma FirstLines(n: nat, a: nat, b: nat)
    requires a < n && b < n && a != b
    ensures Lacks(EmptyLines(n), 0) && Lacks(EmptyLines(n)[a := Tag(0)], 1)
    ensures Held(EmptyLines(n)[a := Tag(0)][b := Tag(1)], a, b, 1)
  {}

  lemma {:induction false} FirstTwo<S(!new)>(m: Machine<S>, inv: S -> bool, p: S, a: nat, b: nat)
    requires Keeps(m, inv) && inv(p) && m.victim(p) == a && m.victim(m.miss(p)) == b && a != b
    ensures Alternated(m, inv, a, b, 0, Before(m, p, b, 1), Run(m, Fresh(m, p), Alternating(0)))
  {
    var s0 := Fresh(m, p);
    assert KeepsAt(m, inv, p) && KeepsAt(m, inv, m.miss(p));
    FirstLines(m.ways, a, b);
    FillOne(m, inv, s0, a, 0);
    FillOne(m, inv, Access(m, s0, 0), b, 1);
    assert [] + [0] == [0] && [0] + [1] == [0, 1];
    RunMore(m, s0, [], 0);
    RunMore(m, s0, [0], 1);
  }

  /** Address 1 is used, and a new one is filled in. */
  lemma UseAndFill<S(!new)>(m: Machine<S>, inv: S -> bool, s: CacheSet<S>, b: nat, x: nat)
    requires Keeps(m, inv) && Valid(m, inv, s) && b < |s.lines| && s.lines[b] == Tag(1) && Lacks(s.lines, x)
    ensures var q := m.hit(s.policy, b);
            var t := Access(m, Access(m, s, 1), x);
            m.victim(q) < |s.lines| && Valid(m, inv, t) && t == CacheSet(m.miss(q), s.lines[m.victim(q) := Tag(x)])
  {
    FindAt(s.lines, 1, b);
    AccessKeeps(m, inv, s, 1);
    FillOne(m, inv, Access(m, s, 1), m.victim(m.hit(s.policy, b)), x);
  }

  lemma NextRound<S(!new)>(m: Machine<S>, inv: S -> bool, a: nat, b: nat, k: nat, next: S, s: CacheSet<S>)
    requires Keeps(m, inv) && Alternated(m, inv, a, b, k, next, s) && m.victim(next) != b
    ensures var t := Access(m, Access(m, s, 1), k + 2);
            Alternated(m, inv, a, b, k + 1, m.hit(m.miss(next), b), t) && (m.victim(next) == a ==> Lacks(t.lines, 0))
  {
    LacksAbove(s.lines, a, b, k + 1);
    UseAndFill(m, inv, s, b, k + 2);
    RoundLines(m, inv, a, b, k, next, s.lines, Access(m, Access(m, s, 1), k + 2));
  }

  lemma RoundLines<S>(m: Machine<S>, inv: S -> bool, a: nat, b: nat, k: nat, next: S, lines: seq<Line>, t: CacheSet<S>)
    requires Held(lines, a, b, k + 1) && m.victim(next) < |lines| && m.victim(next) != b
    requires Valid(m, inv, t) && t == CacheSet(m.miss(next), lines[m.victim(next) := Tag(k + 2)])
    ensures Alternated(m, inv, a, b, k + 1, m.hit(m.miss(next), b), t) && (m.victim(next) == a ==> Lacks(t.lines, 0))
  {
    HeldMore(lines, a, b, k + 1, m.victim(next));
  }

  lemma LacksAbove(lines: seq<Line>, a: nat, b: nat, bound: nat)
    requires Held(lines, a, b, bound)
    ensures Lacks(lines, bound + 1)
  {}

  lemma RunTwo<S>(m: Machine<S>, s: CacheSet<S>, trace: seq<nat>, x: nat, y: nat)
    ensures Run(m, s, trace + [x] + [y]) == Access(m, Access(m, Run(m, s, trace), x), y)
  {
    RunMore(m, s, trace, x);
    RunMore(m, s, trace + [x], y);
  }

  /** The set after round k, as computed, and whether the round has cost address 0 its way. */
  ghost predicate RoundDone<S>(m: Machine<S>, inv: S -> bool, p: S, a: nat, b: nat, k: nat) {
    var s := Run(m, Fresh(m, p), Alternating(k));
    && Alternated(m, inv, a, b, k, Before(m, p, b, k + 1), s)
    && (k > 0 && m.victim(Before(m, p, b, k)) == a ==> Lacks(s.lines, 0))
  }

  lemma RoundMore<S(!new)>(m: Machine<S>, inv: S -> bool, p: S, a: nat, b: nat, k: nat)
    requires Keeps(m, inv) && RoundDone(m, inv, p, a, b, k) && m.victim(Before(m, p, b, k + 1)) != b
    ensures RoundDone(m, inv, p, a, b, k + 1)
  {
    NextRound(m, inv, a, b, k, Before(m, p, b, k + 1), Run(m, Fresh(m, p), Alternating(k)));
    RunTwo(m, Fresh(m, p), Alternating(k), 1, k + 2);
    BeforeMore(m, p, b, k + 1);
  }

  lemma BeforeMore<S>(m: Machine<S>, p: S, b: nat, k: nat)
    requires k > 0
    ensures Before(m, p, b, k + 1) == m.hit(m.miss(Before(m, p, b, k)), b)
  {}

  lemma {:induction false} Rounds<S(!new)>(m: Machine<S>, inv: S -> bool, p: S, a: nat, b: nat, k: nat)
    requires Keeps(m, inv) && inv(p) && m.victim(p) == a && m.victim(m.miss(p)) == b && a != b
    requires forall j: nat :: 0 < j <= k ==> m.victim(Before(m, p, b, j)) != b
    ensures RoundDone(m, inv, p, a, b, k)
  {
    if k == 0 {
      FirstTwo(m, inv, p, a, b);
    } else {
      Rounds(m, inv, p, a, b, k - 1);
      RoundMore(m, inv, p, a, b, k - 1);
    }
  }

  /** If the new address of some round takes the way of address 0, that one is lost. */
  lemma LostInRound<S(!new)>(m: Machine<S>, inv: S -> bool, p: S, a: nat, b: nat, k: nat)
    requires Keeps(m, inv) && inv(p) && m.victim(p) == a && m.victim(m.miss(p)) == b && a != b && k > 0
    requires forall j: nat :: 0 < j <= k ==> m.victim(Before(m, p, b, j)) != b
    requires m.victim(Before(m, p, b, k)) == a
    ensures !Holds(Run(m, Fresh(m, p), Alternating(k)), 0)
  {
    Rounds(m, inv, p, a, b, k);
  }

  lemma {:induction false} AlternatingMembers(k: nat)
    ensures Members(Alternating(k)) == UpTo(k + 2) && |Alternating(k)| == 2 * k + 2
  {
    if k > 0 {
      AlternatingMembers(k - 1);
      MembersMore(Alternating(k - 1), 1);
      MembersMore(Alternating(k - 1) + [1], k + 1);
    } else {
      assert Members(Alternating(0)) == {0, 1} && UpTo(2) == {0, 1};
    }
  }

  // ----- Two groups -----

  /** A state with two groups, of which g is the least recent one. */
  ghost predicate TwoGroups<X>(inner: Machine<X>, inv: X -> bool, s: Wrapped<X>, g: nat, x: X) {
    && Good(s.parts, 2, inv) && s.dirty == Times(inner.ways, 2) && g < 2
    && s.parts.order == [1 - g, g] && s.parts.inner[g] == x
  }

  lemma OrderOfTwo(order: seq<nat>)
    requires IsOrder(order, 2)
    ensures order == [1 - order[1], order[1]]
  {
    OrderDistinct(order, 2);
  }

  /** A miss and a hit in the other group: the same group is the least recent one again. */
  lemma {:induction false} MissAndHit<X(!new)>(inner: Machine<X>, inv: X -> bool, s: Wrapped<X>, g: nat, x: X, b: nat)
    requires Keeps(inner, inv) && TwoGroups(inner, inv, s, g, x)
    requires b < Times(inner.ways, 2) && Group(b, inner.ways) == 1 - g
    ensures TwoGroups(inner, inv, WrappedHit(inner)(WrappedMiss(2, inner)(s), b), g, inner.miss(x))
  {
    MissKeeps(2, inner, inv, s.parts);
    var s1 := WrappedMiss(2, inner)(s);
    assert s1.parts.order == [g, 1 - g] && s1.parts.inner[g] == inner.miss(x);
    HitIs(2, inner, inv, s1, b);
    var s2 := WrappedHit(inner)(s1, b);
    assert Position([g, 1 - g], 1 - g) == 1;
    assert s2.parts.order == [1 - g, g];
  }

  lemma TwoGroupsVictim<X(!new)>(inner: Machine<X>, inv: X -> bool, s: Wrapped<X>, g: nat, x: X)
    requires Keeps(inner, inv) && TwoGroups(inner, inv, s, g, x)
    ensures WrappedVictim(2, inner)(s) == Times(g, inner.ways) + inner.victim(x)
    ensures inner.victim(x) < inner.ways && Group(Times(g, inner.ways) + inner.victim(x), inner.ways) == g
  {
    assert KeepsAt(inner, inv, x);
    GroupOfNumber(g, inner.victim(x), inner.ways);
  }

  // A miss and a hit of way b take a pair of related states to a pair of related states.
  ghost predicate CarriesOn<S, X>(m: Machine<S>, b: nat, f: X -> X, related: (S, X) -> bool, s: S, x: X) {
    related(s, x) ==> related(m.hit(m.miss(s), b), f(x))
  }

  lemma {:induction false} BeforeRelated<S(!new), X(!new)>(
    m: Machine<S>, b: nat, f: X -> X, related: (S, X) -> bool, s: S, x: X, k: nat)
    requires k > 0 && related(m.hit(m.miss(m.miss(s)), b), f(x))
    requires forall t, y :: CarriesOn(m, b, f, related, t, y)
    ensures related(Before(m, s, b, k), Iterate(f, x, k))
  {
    LastStep(f, x, k - 1);
    if k > 1 {
      BeforeRelated(m, b, f, related, s, x, k - 1);
      BeforeMore(m, s, b, k - 1);
      assert CarriesOn(m, b, f, related, Before(m, s, b, k - 1), Iterate(f, x, k - 1));
    }
  }

  /** All rounds are served by the group that was least recent at first, whose policy cycles. */
  lemma BeforeRound<X(!new)>(inner: Machine<X>, inv: X -> bool, s: Wrapped<X>, g: nat, x: X, b: nat, k: nat)
    requires Keeps(inner, inv) && TwoGroups(inner, inv, s, g, x) && k > 0
    requires b < Times(inner.ways, 2) && Group(b, inner.ways) == 1 - g
    requires b == WrappedVictim(2, inner)(WrappedMiss(2, inner)(s))
    ensures TwoGroups(inner, inv, Before(WrappedMachine(2, inner), s, b, k), g, Iterate(inner.miss, x, k))
  {
    var m, related := WrappedMachine(2, inner), (t: Wrapped<X>, y: X) => TwoGroups(inner, inv, t, g, y);
    TwoMissesAndHit(inner, inv, s, g, x, b);
    forall t, y ensures CarriesOn(m, b, inner.miss, related, t, y) {
      if related(t, y) { MissAndHit(inner, inv, t, g, y, b); }
    }
    BeforeRelated(m, b, inner.miss, related, s, x, k);
  }

  /** The first two misses go to different groups. */
  lemma {:induction false} TwoMissesAndHit<X(!new)>(
    inner: Machine<X>, inv: X -> bool, s: Wrapped<X>, g: nat, x: X, b: nat)
    requires Keeps(inner, inv) && TwoGroups(inner, inv, s, g, x)
    requires b < Times(inner.ways, 2) && Group(b, inner.ways) == 1 - g
    ensures TwoGroups(inner, inv, WrappedHit(inner)(WrappedMiss(2, inner)(WrappedMiss(2, inner)(s)), b),
                      g, inner.miss(x))
  {
    MissKeeps(2, inner, inv, s.parts);
    var s1 := WrappedMiss(2, inner)(s);
    assert s1.parts.order == [g, 1 - g] && s1.parts.inner[g] == inner.miss(x);
    MissKeeps(2, inner, inv, s1.parts);
    var s2 := WrappedMiss(2, inner)(s1);
    assert s2.parts.order == [1 - g, g] && s2.parts.inner[g] == inner.miss(x);
    HitIs(2, inner, inv, s2, b);
    assert Position([1 - g, g], 1 - g) == 0;
  }

  lemma SecondVictim<X(!new)>(inner: Machine<X>, inv: X -> bool, s: Wrapped<X>, g: nat, x: X)
    requires Keeps(inner, inv) && TwoGroups(inner, inv, s, g, x)
    ensures var b := WrappedVictim(2, inner)(WrappedMiss(2, inner)(s));
            b < Times(inner.ways, 2) && Group(b, inner.ways) == 1 - g
  {
    MissKeeps(2, inner, inv, s.parts);
    var s1 := WrappedMiss(2, inner)(s);
    assert s1.parts.order == [g, 1 - g];
    MissKeeps(2, inner, inv, s1.parts);
    assert KeepsAt(inner, inv, s1.parts.inner[1 - g]);
    GroupOfNumber(1 - g, inner.victim(s1.parts.inner[1 - g]), inner.ways);
  }

  /** With two filled groups, the new address of round w takes the way of address 0. */
  lemma TwoGroupsLose<X(!new)>(inner: Machine<X>, inv: X -> bool, s: Wrapped<X>)
    requires Keeps(inner, inv) && WrappedOf(2, inner, inv)(s) && s.dirty == Times(inner.ways, 2)
    requires Cycles(inner, s.parts.inner[s.parts.order[1]])
    ensures !Holds(Run(WrappedMachine(2, inner), Fresh(WrappedMachine(2, inner), s), Alternating(inner.ways)), 0)
  {
    var m, w, g := WrappedMachine(2, inner), inner.ways, s.parts.order[1];
    var x := s.parts.inner[g];
    OrderOfTwo(s.parts.order);
    assert TwoGroups(inner, inv, s, g, x);
    SecondVictim(inner, inv, s, g, x);
    var b := m.victim(m.miss(s));
    TwoGroupsVictim(inner, inv, s, g, x);
    forall j: nat | 0 < j <= w
      ensures m.victim(Before(m, s, b, j)) == Times(g, w) + NthVictim(inner, x, j)
        && m.victim(Before(m, s, b, j)) != b
    {
      BeforeRound(inner, inv, s, g, x, b, j);
      TwoGroupsVictim(inner, inv, Before(m, s, b, j), g, Iterate(inner.miss, x, j));
    }
    assert NthVictim(inner, x, w) == inner.victim(x);
    WrappedKeeps(2, inner, inv);
    LostInRound(m, WrappedOf(2, inner, inv), s, m.victim(s), b, w);
  }

  /** A lost address costs a hit against a start from which every reuse hits. */
  lemma LostOnce<S(!new)>(m: Machine<S>, inv: S -> bool, p: S, q: S, trace: seq<nat>, a: nat)
    requires Keeps(m, inv) && inv(p) && a in trace && !Holds(Run(m, Fresh(m, p), trace), a)
    requires ReusesHit(m, q, trace + [a])
    ensures HitCount(m, Fresh(m, p), trace + [a]) < HitCount(m, Fresh(m, q), trace + [a])
    ensures HitCount(m, Fresh(m, q), trace + [a]) == |trace| + 1 - |Members(trace)|
  {
    LostReuse(m, inv, p, trace, a);
    HitsBounded(m, inv, p, trace + [a]);
  }

  /** Two groups of four ways hold six addresses, unless one of them is lost. */
  lemma FilledDropped<X(!new)>(inner: Machine<X>, inv: X -> bool, s: Wrapped<X>, fresh_: Wrapped<X>, rounds: seq<nat>)
    requires inner.ways == 4 && Times(4, 2) == 8 && Keeps(inner, inv)
    requires WrappedOf(2, inner, inv)(s) && WrappedOf(2, inner, inv)(fresh_) && fresh_.dirty == 0
    requires |rounds| == 10 && |Members(rounds)| == 6 && 0 in rounds
    requires !Holds(Run(WrappedMachine(2, inner), Fresh(WrappedMachine(2, inner), s), rounds), 0)
    ensures var m := WrappedMachine(2, inner);
            HitCount(m, Fresh(m, s), rounds + [0]) < HitCount(m, Fresh(m, fresh_), rounds + [0]) == 5
  {
    MembersMore(rounds, 0);
    assert Members(rounds) + {0} == Members(rounds);
    WrappedKeeps(2, inner, inv);
    UnfilledKeepsAll(2, inner, inv, fresh_, rounds + [0]);
    LostOnce(WrappedMachine(2, inner), WrappedOf(2, inner, inv), s, fresh_, rounds, 0);
  }

  lemma FourRounds()
    ensures Alternating(4) + [0] == [0, 1, 1, 2, 1, 3, 1, 4, 1, 5, 0]
  {
    assert Alternating(1) == [0, 1, 1, 2];
    assert Alternating(2) == [0, 1, 1, 2, 1, 3];
    assert Alternating(3) == [0, 1, 1, 2, 1, 3, 1, 4];
  }

  /**
   Two groups over four-way PLRU, as the program offers them for eight ways: on this trace every
   filled state hits less often than every fresh one, so elimination by it drops the true policy.
   */
  lemma FilledLruPlruDropped(s: Wrapped<T.Tree>, fresh_: Wrapped<T.Tree>)
    requires LruPlruOf(2, 2)(s) && LruPlruOf(2, 2)(fresh_) && s.dirty == 8 && fresh_.dirty == 0
    ensures var m, trace := LruPlruMachine(2, 2), [0, 1, 1, 2, 1, 3, 1, 4, 1, 5, 0];
            HitCount(m, Fresh(m, s), trace) < HitCount(m, Fresh(m, fresh_), trace) == 5
  {
    EightWays();
    PlruKeeps(2);
    PlruCycles(2, s.parts.inner[s.parts.order[1]]);
    TwoGroupsLose(PlruMachine(2), PerfectOf(2), s);
    AlternatingMembers(4);
    UpToSize(6);
    MembersMore(Alternating(4), 0);
    FourRounds();
    FilledDropped(PlruMachine(2), PerfectOf(2), s, fresh_, Alternating(4));
  }

  lemma EightWays()
    ensures Pow2(2) == 4 && Times(4, 2) == 8
  {
    assert Pow2(2) == 2 * Pow2(1) && Pow2(1) == 2 * Pow2(0);
    assert Times(4, 2) == Times(3, 2) + 2 && Times(3, 2) == Times(2, 2) + 2;
    assert Times(2, 2) == Times(1, 2) + 2 && Times(1, 2) == Times(0, 2) + 2;
  }
}
