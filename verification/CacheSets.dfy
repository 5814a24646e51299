/**
 One cache set: a replacement state and a line per way. The simulator runs a single set, and
 a cache is made of many.
 */
module CacheSets {
  import opened Machines

  datatype Line = Empty | Tag(address: nat)
  datatype CacheSet<S> = CacheSet(policy: S, lines: seq<Line>)

  /** The first way that holds the address, or the number of ways. */
  function FindWay(lines: seq<Line>, a: nat): (w: nat)
    ensures w <= |lines|
    ensures w < |lines| ==> lines[w] == Tag(a)
    ensures forall i :: 0 <= i < w ==> lines[i] != Tag(a)
  {
    if lines == [] then 0
    else
      var w := FindWay(lines[..|lines| - 1], a);
      if w < |lines| - 1 || lines[|lines| - 1] == Tag(a) then w else |lines|
  }

  predicate Holds<S>(s: CacheSet<S>, a: nat) {
    FindWay(s.lines, a) < |s.lines|
  }

  predicate Unique(lines: seq<Line>) {
    forall i, j :: 0 <= i < j < |lines| && lines[i].Tag? ==> lines[i] != lines[j]
  }

  ghost predicate Valid<S>(m: Machine<S>, inv: S -> bool, s: CacheSet<S>) {
    |s.lines| == m.ways && Unique(s.lines) && inv(s.policy)
  }

  /** Put an address into the way that the policy gives up. */
  function Fill<S>(m: Machine<S>, s: CacheSet<S>, a: nat): CacheSet<S> {
    var v := m.victim(s.policy);
    CacheSet(m.miss(s.policy), if v < |s.lines| then s.lines[v := Tag(a)] else s.lines)
  }

  function Access<S>(m: Machine<S>, s: CacheSet<S>, a: nat): CacheSet<S> {
    if Holds(s, a) then CacheSet(m.hit(s.policy, FindWay(s.lines, a)), s.lines) else Fill(m, s, a)
  }

  /** The set after a sequence of accesses, and the number of them that hit. */
  function Run<S>(m: Machine<S>, s: CacheSet<S>, trace: seq<nat>): CacheSet<S> {
    if trace == [] then s
    else Access(m, Run(m, s, trace[..|trace| - 1]), trace[|trace| - 1])
  }

  function HitCount<S>(m: Machine<S>, s: CacheSet<S>, trace: seq<nat>): nat {
    if trace == [] then 0
    else
      var before, a := trace[..|trace| - 1], trace[|trace| - 1];
      HitCount(m, s, before) + (if Holds(Run(m, s, before), a) then 1 else 0)
  }

  function EmptyLines(n: nat): (lines: seq<Line>)
    ensures |lines| == n && forall i :: 0 <= i < n ==> lines[i] == Empty
  {
    seq(n, i => Empty)
  }

  /** A set that holds nothing yet. */
  function Fresh<S>(m: Machine<S>, policy: S): CacheSet<S> {
    CacheSet(policy, EmptyLines(m.ways))
  }

  lemma FindAt(lines: seq<Line>, a: nat, w: nat)
    requires Unique(lines) && w < |lines| && lines[w] == Tag(a)
    ensures FindWay(lines, a) == w
  {}

  lemma AccessKeeps<S(!new)>(m: Machine<S>, inv: S -> bool, s: CacheSet<S>, a: nat)
    requires Keeps(m, inv) && Valid(m, inv, s)
    ensures Valid(m, inv, Access(m, s, a)) && Holds(Access(m, s, a), a)
  {
    assert KeepsAt(m, inv, s.policy);
    if !Holds(s, a) {
      var lines := s.lines[m.victim(s.policy) := Tag(a)];
      assert Unique(lines);
      FindAt(lines, a, m.victim(s.policy));
    }
  }

  // ----- The simulator -----

  /** The two-way index of the simulator: seen addresses, their last way, and the ways' lines. */
  ghost predicate Indexed(lines: seq<Line>, seen: seq<bool>, addrWay: seq<nat>) {
    && |seen| == |addrWay|
    && (forall a :: 0 <= a < |addrWay| ==> addrWay[a] < |lines|)
    && (forall w :: 0 <= w < |lines| && lines[w].Tag? ==>
          lines[w].address < |seen| && seen[lines[w].address] && addrWay[lines[w].address] == w)
  }

  function Resized<X>(s: seq<X>, n: nat, fill: X): (r: seq<X>)
    ensures |r| == (if n > |s| then n else |s|) && s <= r
    ensures forall i :: |s| <= i < |r| ==> r[i] == fill
  {
    if n > |s| then s + seq(n - |s|, i => fill) else s
  }

  /** Under the index an address is cached exactly when its last way still holds it. */
  lemma IndexFinds(lines: seq<Line>, seen: seq<bool>, addrWay: seq<nat>, a: nat)
    requires Indexed(lines, seen, addrWay) && a < |seen|
    ensures lines[addrWay[a]] == Tag(a) <==> FindWay(lines, a) < |lines|
    ensures lines[addrWay[a]] == Tag(a) ==> FindWay(lines, a) == addrWay[a] && seen[a]
  {
    var w := FindWay(lines, a);
    if w < |lines| { assert lines[w].address == a; }
    if lines[addrWay[a]] == Tag(a) { assert lines[addrWay[a]].address == a; }
  }

  /** The simulator's variables after some accesses. */
  ghost predicate Simulated<S>(
    m: Machine<S>, inv: S -> bool, initial: CacheSet<S>, done: seq<nat>,
    policy: S, lines: seq<Line>, seen: seq<bool>, addrWay: seq<nat>, hits: nat)
  {
    && Valid(m, inv, CacheSet(policy, lines)) && Indexed(lines, seen, addrWay)
    && CacheSet(policy, lines) == Run(m, initial, done) && hits == HitCount(m, initial, done)
  }

  lemma ResizeStep<S(!new)>(
    m: Machine<S>, inv: S -> bool, initial: CacheSet<S>, done: seq<nat>,
    policy: S, lines: seq<Line>, seen: seq<bool>, addrWay: seq<nat>, hits: nat, n: nat)
    requires m.ways > 0 && Simulated(m, inv, initial, done, policy, lines, seen, addrWay, hits)
    ensures Simulated(m, inv, initial, done, policy, lines, Resized(seen, n, false), Resized(addrWay, n, 0), hits)
  {}

  lemma HitStep<S(!new)>(
    m: Machine<S>, inv: S -> bool, initial: CacheSet<S>, done: seq<nat>,
    policy: S, lines: seq<Line>, seen: seq<bool>, addrWay: seq<nat>, hits: nat, a: nat)
    requires Keeps(m, inv) && Simulated(m, inv, initial, done, policy, lines, seen, addrWay, hits)
    requires a < |seen| && lines[addrWay[a]] == Tag(a)
    ensures seen[a]
    ensures Simulated(m, inv, initial, done + [a], m.hit(policy, addrWay[a]), lines, seen, addrWay, hits + 1)
  {
    IndexFinds(lines, seen, addrWay, a);
    AccessKeeps(m, inv, CacheSet(policy, lines), a);
    assert (done + [a])[..|done|] == done;
  }

  lemma MissStep<S(!new)>(
    m: Machine<S>, inv: S -> bool, initial: CacheSet<S>, done: seq<nat>,
    policy: S, lines: seq<Line>, seen: seq<bool>, addrWay: seq<nat>, hits: nat, a: nat)
    requires Keeps(m, inv) && Simulated(m, inv, initial, done, policy, lines, seen, addrWay, hits)
    requires a < |seen| && lines[addrWay[a]] != Tag(a)
    ensures var v := m.victim(policy);
            v < |lines| && Simulated(m, inv, initial, done + [a], m.miss(policy), lines[v := Tag(a)],
                                     seen[a := true], addrWay[a := v], hits)
  {
    IndexFinds(lines, seen, addrWay, a);
    AccessKeeps(m, inv, CacheSet(policy, lines), a);
    assert KeepsAt(m, inv, policy);
    assert (done + [a])[..|done|] == done;
  }

  /** A set of its own, run on the trace; only hits on addresses seen before are counted. */
  method SimulateSequence<S(!new)>(m: Machine<S>, start: S, trace: seq<nat>, ghost inv: S -> bool) returns (hits: nat)
    requires Keeps(m, inv) && inv(start)
    ensures hits == HitCount(m, Fresh(m, start), trace)
  {
    var seen: seq<bool>, addrWay: seq<nat> := [], [];
    var policy := start;
    var lines := EmptyLines(m.ways);
    hits := 0;
    assert KeepsAt(m, inv, start);
    for i := 0 to |trace|
      invariant m.ways > 0
      invariant Simulated(m, inv, Fresh(m, start), trace[..i], policy, lines, seen, addrWay, hits)
    {
      var a := trace[i];
      assert trace[..i + 1] == trace[..i] + [a];
      if a >= |seen| {
        ResizeStep(m, inv, Fresh(m, start), trace[..i], policy, lines, seen, addrWay, hits, 1 + a);
        seen, addrWay := Resized(seen, 1 + a, false), Resized(addrWay, 1 + a, 0);
      }
      var way := addrWay[a];
      var isHit := lines[way] == Tag(a);
      if isHit {
        HitStep(m, inv, Fresh(m, start), trace[..i], policy, lines, seen, addrWay, hits, a);
        policy := m.hit(policy, way);
      } else {
        MissStep(m, inv, Fresh(m, start), trace[..i], policy, lines, seen, addrWay, hits, a);
        way := m.victim(policy);
        policy := m.miss(policy);
        addrWay := addrWay[a := way];
        lines := lines[way := Tag(a)];
      }
      if seen[a] {
        hits := hits + if isHit then 1 else 0;
        assert seen[a := true] == seen;
      } else {
        seen := seen[a := true];
      }
    }
    assert trace[..|trace|] == trace;
  }

  // ----- Renaming the ways -----

  /** R relates policy states that behave alike when way w of one is called sigma(w) in the other. */
  ghost predicate Simulates<S(!new)>(m: Machine<S>, R: (S, S) -> bool, sigma: nat -> nat) {
    forall s, u {:trigger SimulatesAt(m, R, sigma, s, u)} :: R(s, u) ==> SimulatesAt(m, R, sigma, s, u)
  }

  ghost predicate SimulatesAt<S>(m: Machine<S>, R: (S, S) -> bool, sigma: nat -> nat, s: S, u: S) {
    && R(m.miss(s), m.miss(u))
    && m.victim(s) < m.ways && m.victim(u) == sigma(m.victim(s))
    && forall w: nat :: w < m.ways ==> R(m.hit(s, w), m.hit(u, sigma(w)))
  }

  ghost predicate Bijection(n: nat, sigma: nat -> nat, tau: nat -> nat) {
    && (forall w: nat {:trigger sigma(w)} :: w < n ==> sigma(w) < n && tau(sigma(w)) == w)
    && (forall w: nat {:trigger tau(w)} :: w < n ==> tau(w) < n && sigma(tau(w)) == w)
  }

  /** The same contents up to the renaming. */
  ghost predicate Renamed(n: nat, sigma: nat -> nat, s: seq<Line>, u: seq<Line>) {
    |s| == |u| == n && forall w: nat {:trigger sigma(w)} :: w < n ==> sigma(w) < n && u[sigma(w)] == s[w]
  }

  lemma RenamedFind(n: nat, sigma: nat -> nat, tau: nat -> nat, s: seq<Line>, u: seq<Line>, a: nat)
    requires Bijection(n, sigma, tau) && Renamed(n, sigma, s, u) && Unique(u)
    ensures FindWay(s, a) < n <==> FindWay(u, a) < n
    ensures FindWay(s, a) < n ==> FindWay(u, a) == sigma(FindWay(s, a))
  {
    var v, w := FindWay(s, a), FindWay(u, a);
    if w < n { assert s[tau(w)] == u[sigma(tau(w))]; }
    if v < n { FindAt(u, a, sigma(v)); }
  }

  lemma RenamedFill(n: nat, sigma: nat -> nat, tau: nat -> nat, s: seq<Line>, u: seq<Line>, v: nat, line: Line)
    requires Bijection(n, sigma, tau) && Renamed(n, sigma, s, u) && v < n
    ensures sigma(v) < n && Renamed(n, sigma, s[v := line], u[sigma(v) := line])
  {
    forall w: nat | w < n ensures u[sigma(v) := line][sigma(w)] == s[v := line][w] {
      if w != v { assert tau(sigma(w)) != tau(sigma(v)); }
    }
  }

  /** Related sets: related policies, and the same contents up to the renaming. */
  ghost predicate Related<S>(m: Machine<S>, R: (S, S) -> bool, sigma: nat -> nat, s: CacheSet<S>, u: CacheSet<S>) {
    R(s.policy, u.policy) && Renamed(m.ways, sigma, s.lines, u.lines) && Unique(u.lines)
  }

  lemma RelatedAccess<S(!new)>(
    m: Machine<S>, R: (S, S) -> bool, sigma: nat -> nat, tau: nat -> nat, s: CacheSet<S>, u: CacheSet<S>, a: nat)
    requires Simulates(m, R, sigma) && Bijection(m.ways, sigma, tau) && Related(m, R, sigma, s, u)
    ensures Holds(s, a) <==> Holds(u, a)
    ensures Related(m, R, sigma, Access(m, s, a), Access(m, u, a))
  {
    RenamedFind(m.ways, sigma, tau, s.lines, u.lines, a);
    assert SimulatesAt(m, R, sigma, s.policy, u.policy);
    if !Holds(s, a) {
      RenamedFill(m.ways, sigma, tau, s.lines, u.lines, m.victim(s.policy), Tag(a));
    }
  }

  /** Sets that differ only in the names of their ways hit on the same accesses. */
  lemma {:induction false} RelatedRuns<S(!new)>(
    m: Machine<S>, R: (S, S) -> bool, sigma: nat -> nat, tau: nat -> nat, s: CacheSet<S>, u: CacheSet<S>,
    trace: seq<nat>)
    requires Simulates(m, R, sigma) && Bijection(m.ways, sigma, tau) && Related(m, R, sigma, s, u)
    ensures HitCount(m, s, trace) == HitCount(m, u, trace)
    ensures Related(m, R, sigma, Run(m, s, trace), Run(m, u, trace))
    decreases |trace|
  {
    if trace != [] {
      var before, a := trace[..|trace| - 1], trace[|trace| - 1];
      RelatedRuns(m, R, sigma, tau, s, u, before);
      RelatedAccess(m, R, sigma, tau, Run(m, s, before), Run(m, u, before), a);
    }
  }

  /** The count of the simulator does not depend on which of two related states it starts from. */
  lemma RelatedStart<S(!new)>(
    m: Machine<S>, R: (S, S) -> bool, sigma: nat -> nat, tau: nat -> nat, s: S, u: S, trace: seq<nat>)
    requires Simulates(m, R, sigma) && Bijection(m.ways, sigma, tau) && R(s, u)
    ensures HitCount(m, Fresh(m, s), trace) == HitCount(m, Fresh(m, u), trace)
  {
    RelatedRuns(m, R, sigma, tau, Fresh(m, s), Fresh(m, u), trace);
  }
}
