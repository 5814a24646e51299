/**
 A replacement policy as the rest of the program uses it: a number of ways, and what a hit and
 a miss do to the policy's state. Everything in this module holds for any such policy.
 */
module Machines {
  import opened Collections

  datatype Machine<!S> = Machine(ways: nat, hit: (S, nat) -> S, miss: S -> S, victim: S -> nat)

  /** An invariant that both operations keep and under which the victim is one of the ways. */
  ghost predicate Keeps<S(!new)>(m: Machine<S>, inv: S -> bool) {
    forall s {:trigger KeepsAt(m, inv, s)} :: inv(s) ==> KeepsAt(m, inv, s)
  }

  ghost predicate KeepsAt<S>(m: Machine<S>, inv: S -> bool, s: S) {
    inv(m.miss(s)) && m.victim(s) < m.ways && forall way: nat :: way < m.ways ==> inv(m.hit(s, way))
  }

  // ----- Runs of misses -----

  function Iterate<S>(f: S -> S, s: S, k: nat): S {
    if k == 0 then s else Iterate(f, f(s), k - 1)
  }

  lemma {:induction false} IterateAdds<S>(f: S -> S, s: S, j: nat, k: nat)
    ensures Iterate(f, Iterate(f, s, j), k) == Iterate(f, s, j + k)
  {
    if j > 0 { IterateAdds(f, f(s), j - 1, k); }
  }

  lemma LastStep<S>(f: S -> S, s: S, k: nat)
    ensures Iterate(f, s, k + 1) == f(Iterate(f, s, k))
  {
    IterateAdds(f, s, k, 1);
    assert Iterate(f, Iterate(f, s, k), 1) == Iterate(f, f(Iterate(f, s, k)), 0);
  }

  lemma IterateFirst<S>(f: S -> S, s: S, k: nat)
    ensures Iterate(f, s, k + 1) == Iterate(f, f(s), k)
  {}

  /** A step raises the level by one, up to the top. */
  ghost predicate CountsAt<S>(next: S -> S, level: S -> nat, top: nat, s: S) {
    level(next(s)) == if level(s) < top then level(s) + 1 else level(s)
  }

  lemma {:induction false} CountsUp<S(!new)>(next: S -> S, level: S -> nat, top: nat, s: S, k: nat)
    requires level(s) <= top && forall q :: CountsAt(next, level, top, q)
    ensures level(Iterate(next, s, k)) == if level(s) + k < top then level(s) + k else top
    decreases k
  {
    assert CountsAt(next, level, top, s);
    if k > 0 { CountsUp(next, level, top, next(s), k - 1); }
  }

  /** Each of the first k steps leads from one stage to the next. */
  ghost predicate Leads<S(!new)>(f: S -> S, stage: (nat, S) -> bool, k: nat) {
    forall i: nat, s {:trigger LeadsAt(f, stage, i, s)} :: i < k && stage(i, s) ==> LeadsAt(f, stage, i, s)
  }

  ghost predicate LeadsAt<S>(f: S -> S, stage: (nat, S) -> bool, i: nat, s: S) {
    stage(i + 1, f(s))
  }

  lemma {:induction false} StageAfter<S(!new)>(f: S -> S, stage: (nat, S) -> bool, s: S, k: nat)
    requires Leads(f, stage, k) && stage(0, s)
    ensures stage(k, Iterate(f, s, k))
  {
    if k > 0 {
      StageAfter(f, stage, s, k - 1);
      assert LeadsAt(f, stage, k - 1, Iterate(f, s, k - 1));
      LastStep(f, s, k - 1);
    }
  }

  /** The way that the k-th of a run of misses replaces, counting from zero. */
  function NthVictim<S>(m: Machine<S>, s: S, k: nat): nat {
    m.victim(Iterate(m.miss, s, k))
  }

  /** The next misses, as many as there are ways, replace each way exactly once. */
  ghost predicate EachOnce<S>(m: Machine<S>, s: S) {
    && (forall i: nat :: i < m.ways ==> NthVictim(m, s, i) < m.ways)
    && (forall i: nat, j: nat :: i < j < m.ways ==> NthVictim(m, s, i) != NthVictim(m, s, j))
  }

  lemma EachOnceFrom<S>(m: Machine<S>, s: S, victim: nat -> nat)
    requires forall i: nat :: i < m.ways ==> NthVictim(m, s, i) == victim(i) < m.ways
    requires forall i: nat, j: nat :: i < j < m.ways ==> victim(i) != victim(j)
    ensures EachOnce(m, s)
  {
    forall i: nat, j: nat | i < j < m.ways ensures NthVictim(m, s, i) != NthVictim(m, s, j) {
      assert NthVictim(m, s, i) == victim(i) && NthVictim(m, s, j) == victim(j);
    }
  }

  /** ... and leave the policy as it was. */
  ghost predicate Cycles<S>(m: Machine<S>, s: S) {
    m.ways > 0 && EachOnce(m, s) && Iterate(m.miss, s, m.ways) == s
  }

  /** The way that the next miss takes is taken again by the last miss of a cycle after it, not before. */
  ghost predicate ReplacedLast<S>(m: Machine<S>, s: S) {
    m.ways > 0 && forall k: nat :: k < m.ways ==> (NthVictim(m, m.miss(s), k) == m.victim(s) <==> k == m.ways - 1)
  }

  /** Under a cyclic policy a way just replaced survives the next misses up to the last of a cycle. */
  lemma SurvivesUntilCycle<S>(m: Machine<S>, s: S)
    requires Cycles(m, s)
    ensures ReplacedLast(m, s)
  {
    assert NthVictim(m, s, 0) == m.victim(s);
    forall k: nat | k < m.ways ensures NthVictim(m, m.miss(s), k) == m.victim(s) <==> k == m.ways - 1 {
      assert NthVictim(m, m.miss(s), k) == NthVictim(m, s, k + 1);
    }
  }

  /** If each way is taken once, every way is taken. */
  lemma TakenSometime<S>(m: Machine<S>, s: S, y: nat) returns (t: nat)
    requires EachOnce(m, s) && y < m.ways
    ensures t < m.ways && NthVictim(m, s, t) == y
  {
    var v := Victims(m, s, m.ways);
    EachOnceByCounting(m, s);
    UpToSize(m.ways);
    assert Members(v) <= UpTo(m.ways);
    SubsetOfSameSize(Members(v), UpTo(m.ways));
    assert y in Members(v);
    t :| 0 <= t < |v| && v[t] == y;
  }

  // ----- Ways that go before others -----

  /** While ahead holds, x goes before y; it may end when x is taken. */
  ghost predicate GoesBefore<S(!new)>(m: Machine<S>, ahead: S -> bool, x: nat, y: nat) {
    forall s {:trigger GoesBeforeAt(m, ahead, x, y, s)} :: ahead(s) ==> GoesBeforeAt(m, ahead, x, y, s)
  }

  ghost predicate GoesBeforeAt<S>(m: Machine<S>, ahead: S -> bool, x: nat, y: nat, s: S) {
    m.victim(s) != y && (m.victim(s) != x ==> ahead(m.miss(s)))
  }

  lemma {:induction false} TakenBefore<S(!new)>(
    m: Machine<S>, ahead: S -> bool, x: nat, y: nat, s: S, t: nat) returns (i: nat)
    requires GoesBefore(m, ahead, x, y) && ahead(s) && NthVictim(m, s, t) == y
    ensures i < t && NthVictim(m, s, i) == x
    decreases t
  {
    assert GoesBeforeAt(m, ahead, x, y, s);
    i := 0;
    if m.victim(s) != x {
      i := TakenBefore(m, ahead, x, y, m.miss(s), t - 1);
      i := i + 1;
    }
  }

  /** If x stays ahead when it is taken the first time, it is taken twice before y. */
  lemma {:induction false} TakenTwiceBefore<S(!new)>(
    m: Machine<S>, far: S -> bool, ahead: S -> bool, x: nat, y: nat, s: S, t: nat) returns (i: nat, j: nat)
    requires GoesBefore(m, far, x, y) && GoesBefore(m, ahead, x, y)
    requires forall p {:trigger ahead(m.miss(p))} :: far(p) && m.victim(p) == x ==> ahead(m.miss(p))
    requires far(s) && NthVictim(m, s, t) == y
    ensures i < j < t && NthVictim(m, s, i) == NthVictim(m, s, j) == x
    decreases t
  {
    assert GoesBeforeAt(m, far, x, y, s);
    if m.victim(s) == x {
      i := 0;
      j := TakenBefore(m, ahead, x, y, m.miss(s), t - 1);
      j := j + 1;
    } else {
      i, j := TakenTwiceBefore(m, far, ahead, x, y, m.miss(s), t - 1);
      i, j := i + 1, j + 1;
    }
  }

  /** While near holds and v is not taken, it keeps holding, and when z is taken, v goes before z. */
  ghost predicate StaysNear<S(!new)>(m: Machine<S>, near: S -> bool, ahead: S -> bool, v: nat, z: nat) {
    forall s {:trigger near(s)} :: near(s) && m.victim(s) != v ==> StaysNearAt(m, near, ahead, z, s)
  }

  ghost predicate StaysNearAt<S>(m: Machine<S>, near: S -> bool, ahead: S -> bool, z: nat, s: S) {
    near(m.miss(s)) && (m.victim(s) == z ==> ahead(m.miss(s)))
  }

  lemma NthVictimLater<S>(m: Machine<S>, s: S, j: nat, k: nat)
    ensures NthVictim(m, s, j + k) == NthVictim(m, Iterate(m.miss, s, j), k)
  {
    IterateAdds(m.miss, s, j, k);
  }

  lemma {:induction false} NearUntil<S(!new)>(
    m: Machine<S>, near: S -> bool, ahead: S -> bool, v: nat, z: nat, s: S, k: nat)
    requires StaysNear(m, near, ahead, v, z) && near(s) && forall i: nat :: i < k ==> NthVictim(m, s, i) != v
    ensures near(Iterate(m.miss, s, k))
  {
    if k > 0 {
      NearUntil(m, near, ahead, v, z, s, k - 1);
      assert NthVictim(m, s, k - 1) != v;
      LastStep(m.miss, s, k - 1);
      assert StaysNearAt(m, near, ahead, z, Iterate(m.miss, s, k - 1));
    }
  }

  /** Until v is taken, way z is not taken twice. */
  lemma NotTwiceBefore<S(!new)>(
    m: Machine<S>, near: S -> bool, ahead: S -> bool, v: nat, z: nat, s: S, i: nat, j: nat)
    requires StaysNear(m, near, ahead, v, z) && GoesBefore(m, ahead, v, z) && near(s) && i < j
    requires forall k: nat :: k < j ==> NthVictim(m, s, k) != v
    requires NthVictim(m, s, i) == z
    ensures NthVictim(m, s, j) != z
  {
    if NthVictim(m, s, j) == z {
      NearUntil(m, near, ahead, v, z, s, i);
      var q := Iterate(m.miss, s, i);
      assert m.victim(q) != v by { assert NthVictim(m, s, i) != v; }
      assert StaysNearAt(m, near, ahead, z, q);
      LastStep(m.miss, s, i);
      NthVictimLater(m, s, i + 1, j - i - 1);
      var k := TakenBefore(m, ahead, v, z, m.miss(q), j - i - 1);
      NthVictimLater(m, s, i + 1, k);
    }
  }

  /** If a way is taken again last and no other is taken twice before, each is taken once. */
  lemma LastMeansOnce<S>(m: Machine<S>, s: S)
    requires ReplacedLast(m, s) && forall i: nat :: i < m.ways ==> NthVictim(m, s, i) < m.ways
    requires forall i: nat, j: nat :: i < j < m.ways - 1 ==> NthVictim(m, m.miss(s), i) != NthVictim(m, m.miss(s), j)
    ensures EachOnce(m, s)
  {
    forall i: nat, j: nat | i < j < m.ways ensures NthVictim(m, s, i) != NthVictim(m, s, j) {
      assert NthVictim(m, s, j) == NthVictim(m, m.miss(s), j - 1);
      if i > 0 { assert NthVictim(m, s, i) == NthVictim(m, m.miss(s), i - 1); }
    }
  }

  // ----- Victims in rotation -----

  function Rotated(k: nat, t: nat, n: nat): nat
    requires k < n && t <= n
  {
    if k + t < n then k + t else k + t - n
  }

  /** From a good state, each miss leads to a good state with the next way as its victim. */
  ghost predicate Rotates<S(!new)>(m: Machine<S>, good: S -> bool) {
    forall s {:trigger RotatesAt(m, good, s)} :: good(s) ==> RotatesAt(m, good, s)
  }

  ghost predicate RotatesAt<S>(m: Machine<S>, good: S -> bool, s: S) {
    m.victim(s) < m.ways && good(m.miss(s)) && m.victim(m.miss(s)) == Rotated(m.victim(s), 1, m.ways)
  }

  lemma {:induction false} RotationRun<S(!new)>(m: Machine<S>, good: S -> bool, s: S, t: nat)
    requires Rotates(m, good) && good(s) && t <= m.ways
    ensures m.victim(s) < m.ways && good(Iterate(m.miss, s, t)) && NthVictim(m, s, t) == Rotated(m.victim(s), t, m.ways)
  {
    assert RotatesAt(m, good, s);
    if t > 0 {
      RotationRun(m, good, s, t - 1);
      LastStep(m.miss, s, t - 1);
      assert RotatesAt(m, good, Iterate(m.miss, s, t - 1));
    }
  }

  /** A whole cycle comes back to the same victim, even from a state that only leads to good ones. */
  lemma WholeRotation<S(!new)>(m: Machine<S>, good: S -> bool, s: S)
    requires Rotates(m, good) && good(m.miss(s)) && m.victim(s) < m.ways
    requires m.victim(m.miss(s)) == Rotated(m.victim(s), 1, m.ways)
    ensures good(Iterate(m.miss, s, m.ways)) && m.victim(Iterate(m.miss, s, m.ways)) == m.victim(s)
  {
    RotationRun(m, good, m.miss(s), m.ways - 1);
    assert Iterate(m.miss, s, m.ways) == Iterate(m.miss, m.miss(s), m.ways - 1);
  }

  lemma RotationCycles<S(!new)>(m: Machine<S>, good: S -> bool, s: S)
    requires Rotates(m, good) && good(s)
    ensures EachOnce(m, s)
  {
    forall t: nat | t < m.ways ensures m.victim(s) < m.ways && NthVictim(m, s, t) == Rotated(m.victim(s), t, m.ways) {
      RotationRun(m, good, s, t);
    }
  }

  // ----- The program's test for cyclic eviction -----

  function Victims<S>(m: Machine<S>, s: S, k: nat): (v: seq<nat>)
    ensures |v| == k && forall i :: 0 <= i < k ==> v[i] == NthVictim(m, s, i)
  {
    if k == 0 then [] else Victims(m, s, k - 1) + [NthVictim(m, s, k - 1)]
  }

  lemma EachOnceByCounting<S>(m: Machine<S>, s: S)
    requires forall i: nat :: i < m.ways ==> NthVictim(m, s, i) < m.ways
    ensures EachOnce(m, s) <==> |Members(Victims(m, s, m.ways))| == m.ways
  {
    var v := Victims(m, s, m.ways);
    SetOfDistinct(v);
    if |Members(v)| == m.ways {
      forall i: nat, j: nat | i < j < m.ways ensures NthVictim(m, s, i) != NthVictim(m, s, j) {
        assert v[i] != v[j];
      }
    } else {
      var i, j :| 0 <= i < j < |v| && v[i] == v[j];
      assert NthVictim(m, s, i) == NthVictim(m, s, j);
    }
  }

  method CheckCyclicEviction<S(!new)>(m: Machine<S>, s: S, ghost inv: S -> bool) returns (cyclic: bool, s': S)
    requires Keeps(m, inv) && inv(s)
    ensures cyclic <==> EachOnce(m, s)
    ensures s' == Iterate(m.miss, s, m.ways)
  {
    var evicted: set<nat> := {};
    s' := s;
    for i := 0 to m.ways
      invariant s' == Iterate(m.miss, s, i) && inv(s')
      invariant evicted == Members(Victims(m, s, i))
      invariant forall j: nat :: j < i ==> NthVictim(m, s, j) < m.ways
    {
      assert KeepsAt(m, inv, s');
      assert Victims(m, s, i + 1) == Victims(m, s, i) + [NthVictim(m, s, i)];
      evicted := evicted + {m.victim(s')};
      LastStep(m.miss, s, i);
      s' := m.miss(s');
    }
    cyclic := |evicted| == m.ways;
    EachOnceByCounting(m, s);
  }
}
