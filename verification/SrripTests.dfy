/**
 SRRIP under the eviction test: exactly from which states the way of the target is replaced again
 by the last miss of a cycle.
 */
module SrripTests {
  import opened Machines
  import opened Policies
  import opened Fills
  import opened SrripStarts

  // ----- From a staircase -----

  lemma RotationReplacesLast<S(!new)>(m: Machine<S>, good: S -> bool, s: S)
    requires Rotates(m, good) && good(s)
    ensures ReplacedLast(m, s)
  {
    assert RotatesAt(m, good, s);
    forall k: nat | k < m.ways ensures NthVictim(m, m.miss(s), k) == m.victim(s) <==> k == m.ways - 1 {
      RotationRun(m, good, m.miss(s), k);
    }
  }

  // ----- From any other state -----

  /** Way z is not ahead of way v by more than the round in which v was replaced. */
  predicate Near(e: seq<nat>, v: nat, z: nat) {
    v < |e| && z < |e| && v != z && e[z] <= e[v] + (if z < v then 0 else 1)
  }

  lemma NearAfter(bits: nat, e: seq<nat>, z: nat)
    requires InRange(bits, e) && z < |e| && z != LeftmostMax(e)
    ensures Near(SrripMiss(bits, e), LeftmostMax(e), z)
  {
    var v := LeftmostMax(e);
    DistantPositive(bits);
    assert e[z] <= e[v] && (z < v ==> e[z] < e[v]);
  }

  /** As long as v is not replaced, z stays near; once z is replaced, v goes before it. */
  lemma NearStep(bits: nat, e: seq<nat>, v: nat, z: nat)
    requires InRange(bits, e) && Near(e, v, z) && LeftmostMax(e) != v
    ensures Near(SrripMiss(bits, e), v, z)
    ensures LeftmostMax(e) == z ==> Ahead(SrripMiss(bits, e), v, z, 0)
  {
    var x := LeftmostMax(e);
    DistantPositive(bits);
    assert e[v] <= e[x] && e[z] <= e[x] && (v < x ==> e[v] < e[x]);
  }

  function NearTo(bits: nat, n: nat, v: nat, z: nat): seq<nat> -> bool {
    (e: seq<nat>) => |e| == n && InRange(bits, e) && Near(e, v, z)
  }

  lemma NearStays(bits: nat, byFrequency: bool, n: nat, v: nat, z: nat)
    ensures StaysNear(SrripMachine(bits, byFrequency, n), NearTo(bits, n, v, z), AheadBy(bits, n, v, z, 0), v, z)
  {
    var m, near, ahead := SrripMachine(bits, byFrequency, n), NearTo(bits, n, v, z), AheadBy(bits, n, v, z, 0);
    forall e | near(e) && m.victim(e) != v ensures StaysNearAt(m, near, ahead, z, e) { NearStep(bits, e, v, z); }
  }

  lemma SrripNotTwice(bits: nat, byFrequency: bool, n: nat, e: seq<nat>, i: nat, j: nat)
    requires SrripOf(bits, n)(e) && ReplacedLast(SrripMachine(bits, byFrequency, n), e) && i < j < n - 1
    ensures var m := SrripMachine(bits, byFrequency, n);
            NthVictim(m, m.miss(e), i) != NthVictim(m, m.miss(e), j)
  {
    var m := SrripMachine(bits, byFrequency, n);
    SrripKeeps(bits, byFrequency, n);
    VictimsInRange(m, SrripOf(bits, n), e, n);
    var v, z, e1 := m.victim(e), NthVictim(m, m.miss(e), i), m.miss(e);
    assert z == NthVictim(m, e, i + 1);
    NearAfter(bits, e, z);
    NearStays(bits, byFrequency, n, v, z);
    AheadGoesBefore(bits, byFrequency, n, v, z, 0);
    SrripInRange(bits, e);
    NotTwiceBefore(m, NearTo(bits, n, v, z), AheadBy(bits, n, v, z, 0), v, z, e1, i, j);
  }

  lemma SrripInRange(bits: nat, e: seq<nat>)
    requires InRange(bits, e)
    ensures InRange(bits, SrripMiss(bits, e)) && |SrripMiss(bits, e)| == |e|
  {}

  /** SRRIP replaces the way of the next miss again last exactly from the staircases. */
  lemma SrripReplacedLastIff(bits: nat, byFrequency: bool, n: nat, e: seq<nat>)
    requires SrripOf(bits, n)(e)
    ensures ReplacedLast(SrripMachine(bits, byFrequency, n), e) <==> Staircase(e)
  {
    var m := SrripMachine(bits, byFrequency, n);
    if Staircase(e) {
      StairsRotate(bits, byFrequency, n);
      RotationReplacesLast(m, Stairs(bits, n), e);
    } else if ReplacedLast(m, e) {
      SrripKeeps(bits, byFrequency, n);
      VictimsInRange(m, SrripOf(bits, n), e, n);
      forall i: nat, j: nat | i < j < n - 1 ensures NthVictim(m, m.miss(e), i) != NthVictim(m, m.miss(e), j) {
        SrripNotTwice(bits, byFrequency, n, e, i, j);
      }
      LastMeansOnce(m, e);
      SrripCyclesIff(bits, byFrequency, n, e);
    }
  }
}
