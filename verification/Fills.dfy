/**
 Sets that start empty: how often a trace can hit, which addresses a run of fills leaves in the
 set, and a trace that shows a policy replacing a line while an empty way is left.
 */
module Fills {
  import opened Collections
  import opened Machines
  import opened CacheSets
  import opened SetAssociativeCaches
  import opened Measurements

  // ----- First uses miss -----

  lemma RunMore<S>(m: Machine<S>, s: CacheSet<S>, trace: seq<nat>, a: nat)
    ensures Run(m, s, trace + [a]) == Access(m, Run(m, s, trace), a)
    ensures HitCount(m, s, trace + [a]) == HitCount(m, s, trace) + (if Holds(Run(m, s, trace), a) then 1 else 0)
  {
    assert (trace + [a])[..|trace|] == trace;
  }

  /** A trace hits at most as often as it reuses addresses. */
  lemma {:induction false} HitsBounded<S(!new)>(m: Machine<S>, inv: S -> bool, p: S, trace: seq<nat>)
    requires Keeps(m, inv) && inv(p)
    ensures HitCount(m, Fresh(m, p), trace) + |Members(trace)| <= |trace|
  {
    if trace != [] {
      var before, a := trace[..|trace| - 1], trace[|trace| - 1];
      HitsBounded(m, inv, p, before);
      assert trace == before + [a];
      MembersMore(before, a);
      HeldWasUsed(m, inv, p, before, a);
      if a in before { assert Members(before) + {a} == Members(before); }
    }
  }

  /** Every reuse hits. */
  ghost predicate ReusesHit<S>(m: Machine<S>, p: S, trace: seq<nat>) {
    HitCount(m, Fresh(m, p), trace) + |Members(trace)| == |trace|
  }

  /** A reuse of an address that was lost makes the trace hit less often than it reuses. */
  lemma LostReuse<S(!new)>(m: Machine<S>, inv: S -> bool, p: S, trace: seq<nat>, a: nat)
    requires Keeps(m, inv) && inv(p) && a in trace && !Holds(Run(m, Fresh(m, p), trace), a)
    ensures !ReusesHit(m, p, trace + [a]) && Members(trace + [a]) == Members(trace)
  {
    HitsBounded(m, inv, p, trace);
    RunMore(m, Fresh(m, p), trace, a);
    MembersMore(trace, a);
    assert Members(trace) + {a} == Members(trace);
  }

  // ----- Runs of fills -----

  /** The lines after the addresses were put one by one into the given ways. */
  function LinesAfter(n: nat, ways: seq<nat>, xs: seq<nat>): (lines: seq<Line>)
    requires |ways| == |xs| && forall i :: 0 <= i < |ways| ==> ways[i] < n
    ensures |lines| == n
  {
    if xs == [] then EmptyLines(n)
    else
      var k := |xs| - 1;
      LinesAfter(n, ways[..k], xs[..k])[ways[k] := Tag(xs[k])]
  }

  /** Element i is the last one with its value. */
  ghost predicate LastIn(ways: seq<nat>, i: nat)
    requires i < |ways|
  {
    forall j :: i < j < |ways| ==> ways[j] != ways[i]
  }

  /** Of different addresses, those remain whose way was not taken again. */
  lemma {:induction false} LinesHold(n: nat, ways: seq<nat>, xs: seq<nat>, i: nat)
    requires |ways| == |xs| && NoRepeats(xs) && i < |xs| && forall j :: 0 <= j < |ways| ==> ways[j] < n
    ensures LastIn(ways, i) ==> LinesAfter(n, ways, xs)[ways[i]] == Tag(xs[i])
    ensures !LastIn(ways, i) ==> Tag(xs[i]) !in LinesAfter(n, ways, xs)
    decreases |xs|
  {
    var k := |xs| - 1;
    var lines := LinesAfter(n, ways[..k], xs[..k]);
    assert i < k ==> xs[i] == xs[..k][i];
    if i < k {
      LinesHold(n, ways[..k], xs[..k], i);
      assert LastIn(ways, i) <==> LastIn(ways[..k], i) && ways[k] != ways[i];
      if LastIn(ways[..k], i) && ways[k] == ways[i] { OnlyThere(n, ways[..k], xs[..k], i); }
    }
  }

  lemma {:induction false} OnlyThere(n: nat, ways: seq<nat>, xs: seq<nat>, i: nat)
    requires |ways| == |xs| && NoRepeats(xs) && i < |xs| && forall j :: 0 <= j < |ways| ==> ways[j] < n
    ensures forall w :: 0 <= w < n && w != ways[i] ==> LinesAfter(n, ways, xs)[w] != Tag(xs[i])
    decreases |xs|
  {
    var k := |xs| - 1;
    if i < k {
      OnlyThere(n, ways[..k], xs[..k], i);
    } else {
      NotYet(n, ways[..k], xs[..k], xs[k]);
    }
  }

  lemma {:induction false} NotYet(n: nat, ways: seq<nat>, xs: seq<nat>, x: nat)
    requires |ways| == |xs| && x !in xs && forall j :: 0 <= j < |ways| ==> ways[j] < n
    ensures forall w :: 0 <= w < n ==> LinesAfter(n, ways, xs)[w] != Tag(x)
    decreases |xs|
  {
    if xs != [] { NotYet(n, ways[..|xs| - 1], xs[..|xs| - 1], x); }
  }

  lemma {:induction false} VictimsInRange<S(!new)>(m: Machine<S>, inv: S -> bool, p: S, k: nat)
    requires Keeps(m, inv) && inv(p)
    ensures inv(Iterate(m.miss, p, k)) && forall i: nat :: i < k ==> NthVictim(m, p, i) < m.ways
  {
    if k > 0 {
      VictimsInRange(m, inv, p, k - 1);
      LastStep(m.miss, p, k - 1);
      assert KeepsAt(m, inv, Iterate(m.miss, p, k - 1));
    }
  }

  /** Different addresses all miss, and fill the ways that the policy gives up one after another. */
  lemma {:induction false} FillRun<S(!new)>(m: Machine<S>, inv: S -> bool, p: S, xs: seq<nat>)
    requires Keeps(m, inv) && inv(p) && NoRepeats(xs)
    ensures forall i :: 0 <= i < |xs| ==> Victims(m, p, |xs|)[i] < m.ways
    ensures Run(m, Fresh(m, p), xs) == CacheSet(Iterate(m.miss, p, |xs|), LinesAfter(m.ways, Victims(m, p, |xs|), xs))
    ensures HitCount(m, Fresh(m, p), xs) == 0
  {
    VictimsInRange(m, inv, p, |xs|);
    if xs != [] {
      var k := |xs| - 1;
      var before, x := xs[..k], xs[k];
      FillRun(m, inv, p, before);
      LastStep(m.miss, p, k);
      HeldWasUsed(m, inv, p, before, x);
      assert Victims(m, p, k + 1)[..k] == Victims(m, p, k);
    }
  }

  lemma HeldAfterFills<S(!new)>(m: Machine<S>, inv: S -> bool, p: S, xs: seq<nat>, i: nat)
    requires Keeps(m, inv) && inv(p) && NoRepeats(xs) && i < |xs|
    ensures Holds(Run(m, Fresh(m, p), xs), xs[i]) <==> LastIn(Victims(m, p, |xs|), i)
  {
    FillRun(m, inv, p, xs);
    var ways := Victims(m, p, |xs|);
    LinesHold(m.ways, ways, xs, i);
    HoldsIff(LinesAfter(m.ways, ways, xs), xs[i]);
  }

  lemma {:induction false} NumbersAreDistinct(k: nat)
    ensures NoRepeats(Numbers(k)) && Members(Numbers(k)) == UpTo(k)
  {
    if k > 0 {
      var before := Numbers(k - 1);
      NumbersAreDistinct(k - 1);
      assert Numbers(k) == before + [k - 1] && Numbers(k)[..k - 1] == before;
      MembersMore(before, k - 1);
    }
  }

  lemma NumbersAndOne(k: nat, i: nat)
    requires i < k
    ensures |Members(Numbers(k))| == k && Members(Numbers(k) + [i]) == Members(Numbers(k))
  {
    NumbersAreDistinct(k);
    UpToSize(k);
    MembersMore(Numbers(k), i);
  }

  /** After fills, the reuse of one address hits exactly if its way was not taken again. */
  lemma FillThenReuse<S(!new)>(m: Machine<S>, inv: S -> bool, p: S, k: nat, i: nat)
    requires Keeps(m, inv) && inv(p) && i < k
    ensures ReusesHit(m, p, Numbers(k) + [i]) <==> LastIn(Victims(m, p, k), i)
    ensures |Members(Numbers(k) + [i])| == k
  {
    var xs := Numbers(k);
    NumbersAreDistinct(k);
    HeldAfterFills(m, inv, p, xs, i);
    FillRun(m, inv, p, xs);
    RunMore(m, Fresh(m, p), xs, i);
    NumbersAndOne(k, i);
  }

  /** As many fills as ways, then a reuse: every such reuse hits exactly if each way is taken once. */
  lemma FillAndReuse<S(!new)>(m: Machine<S>, inv: S -> bool, p: S)
    requires Keeps(m, inv) && inv(p)
    ensures EachOnce(m, p) <==> forall i: nat :: i < m.ways ==> ReusesHit(m, p, Numbers(m.ways) + [i])
  {
    var ways := Victims(m, p, m.ways);
    VictimsInRange(m, inv, p, m.ways);
    forall i: nat | i < m.ways ensures ReusesHit(m, p, Numbers(m.ways) + [i]) <==> LastIn(ways, i) {
      FillThenReuse(m, inv, p, m.ways, i);
    }
    OnceIsLast(m, p, ways);
  }

  lemma OnceIsLast<S>(m: Machine<S>, p: S, ways: seq<nat>)
    requires ways == Victims(m, p, m.ways) && forall i: nat :: i < m.ways ==> NthVictim(m, p, i) < m.ways
    ensures EachOnce(m, p) <==> forall i: nat :: i < m.ways ==> LastIn(ways, i)
  {
    if forall i: nat :: i < m.ways ==> LastIn(ways, i) {
      forall i: nat, j: nat | i < j < m.ways ensures NthVictim(m, p, i) != NthVictim(m, p, j) {
        assert LastIn(ways, i);
        assert ways[j] != ways[i];
      }
    }
  }

  // ----- Traces in two parts -----

  lemma {:induction false} RunAdds<S>(m: Machine<S>, s: CacheSet<S>, first: seq<nat>, then_: seq<nat>)
    ensures Run(m, s, first + then_) == Run(m, Run(m, s, first), then_)
    ensures HitCount(m, s, first + then_) == HitCount(m, s, first) + HitCount(m, Run(m, s, first), then_)
    decreases |then_|
  {
    if then_ == [] {
      assert first + then_ == first;
    } else {
      var before, a := then_[..|then_| - 1], then_[|then_| - 1];
      RunAdds(m, s, first, before);
      assert then_ == before + [a] && first + then_ == (first + before) + [a];
      RunMore(m, s, first + before, a);
      RunMore(m, Run(m, s, first), before, a);
    }
  }

  /** A set that starts empty begins with a miss, so that only its outcome matters. */
  lemma {:induction false} FirstMissDecides<S>(m: Machine<S>, p: S, q: S, trace: seq<nat>)
    requires m.miss(p) == m.miss(q) && m.victim(p) == m.victim(q)
    ensures HitCount(m, Fresh(m, p), trace) == HitCount(m, Fresh(m, q), trace)
    ensures trace != [] ==> Run(m, Fresh(m, p), trace) == Run(m, Fresh(m, q), trace)
  {
    if trace != [] {
      var before := trace[..|trace| - 1];
      FirstMissDecides(m, p, q, before);
      if before == [] {
        assert !Holds(Fresh(m, p), trace[0]) && !Holds(Fresh(m, q), trace[0]);
      }
    }
  }

  // ----- Repeated hits and repeated replacement of one way -----

  function Repeat(a: nat, k: nat): (r: seq<nat>)
    ensures |r| == k && forall i :: 0 <= i < k ==> r[i] == a
  {
    if k == 0 then [] else Repeat(a, k - 1) + [a]
  }

  function IterateHit<S>(m: Machine<S>, p: S, way: nat, k: nat): S {
    if k == 0 then p else m.hit(IterateHit(m, p, way, k - 1), way)
  }

  lemma {:induction false} RepeatHits<S>(m: Machine<S>, s: CacheSet<S>, a: nat, k: nat)
    requires Holds(s, a)
    ensures Run(m, s, Repeat(a, k)) == CacheSet(IterateHit(m, s.policy, FindWay(s.lines, a), k), s.lines)
    ensures HitCount(m, s, Repeat(a, k)) == k
  {
    if k > 0 {
      RepeatHits(m, s, a, k - 1);
      RunMore(m, s, Repeat(a, k - 1), a);
    }
  }

  ghost predicate Lacks(lines: seq<Line>, a: nat) {
    forall w :: 0 <= w < |lines| ==> lines[w] != Tag(a)
  }

  /** The same lines, except perhaps in one way. */
  ghost predicate SameBut(lines: seq<Line>, lines': seq<Line>, p: nat) {
    p < |lines| == |lines'| && forall w :: 0 <= w < |lines| && w != p ==> lines'[w] == lines[w]
  }

  function NewOnes(n: nat, k: nat): (s: seq<nat>)
    ensures |s| == k
  {
    if k == 0 then [] else NewOnes(n, k - 1) + [n + k - 1]
  }

  /** A new address goes to way q of a set that has changed in way p only. */
  lemma NewAddress<S>(m: Machine<S>, lines: seq<Line>, t: CacheSet<S>, p: nat, q: nat, x: nat)
    requires SameBut(lines, t.lines, p) && t.lines[p] != Tag(x) && Lacks(lines, x)
    requires q < |lines| && m.victim(t.policy) == q
    ensures !Holds(t, x) && Access(m, t, x).policy == m.miss(t.policy)
    ensures SameBut(t.lines, Access(m, t, x).lines, q) && Access(m, t, x).lines[q] == Tag(x)
    ensures p == q ==> SameBut(lines, Access(m, t, x).lines, p)
  {}

  /** While the policy insists on one way, new addresses replace each other there. */
  ghost predicate Churned<S>(m: Machine<S>, s: CacheSet<S>, p: nat, n: nat, k: nat) {
    var t := Run(m, s, NewOnes(n, k));
    && HitCount(m, s, NewOnes(n, k)) == 0 && t.policy == Iterate(m.miss, s.policy, k)
    && SameBut(s.lines, t.lines, p) && (t.lines[p] == if k == 0 then s.lines[p] else Tag(n + k - 1))
  }

  lemma {:induction false} Churn<S>(m: Machine<S>, s: CacheSet<S>, p: nat, n: nat, k: nat)
    requires p < |s.lines| && forall x: nat :: n <= x ==> Lacks(s.lines, x)
    requires forall i: nat :: i < k ==> NthVictim(m, s.policy, i) == p
    ensures Churned(m, s, p, n, k)
  {
    if k == 0 {
      ChurnStart(m, s, p, n);
    } else {
      Churn(m, s, p, n, k - 1);
      assert Lacks(s.lines, n + (k - 1));
      ChurnMore(m, s, p, n, k - 1);
    }
  }

  lemma ChurnStart<S>(m: Machine<S>, s: CacheSet<S>, p: nat, n: nat)
    requires p < |s.lines|
    ensures Churned(m, s, p, n, 0)
  {}

  lemma ChurnMore<S>(m: Machine<S>, s: CacheSet<S>, p: nat, n: nat, k: nat)
    requires Churned(m, s, p, n, k) && Lacks(s.lines, n + k) && NthVictim(m, s.policy, k) == p
    ensures Churned(m, s, p, n, k + 1)
  {
    LastStep(m.miss, s.policy, k);
    OneNewAddress(m, s, NewOnes(n, k), NewOnes(n, k + 1), p, p, n + k);
  }

  lemma OneNewAddress<S>(
    m: Machine<S>, s: CacheSet<S>, trace: seq<nat>, trace': seq<nat>, p: nat, q: nat, x: nat)
    requires trace' == trace + [x]
    requires var t := Run(m, s, trace);
             SameBut(s.lines, t.lines, p) && t.lines[p] != Tag(x) && q < |s.lines| && m.victim(t.policy) == q
    requires HitCount(m, s, trace) == 0 && Lacks(s.lines, x)
    ensures var t, t' := Run(m, s, trace), Run(m, s, trace');
            && HitCount(m, s, trace') == 0 && t'.policy == m.miss(t.policy)
            && SameBut(t.lines, t'.lines, q) && t'.lines[q] == Tag(x) && (p == q ==> SameBut(s.lines, t'.lines, p))
  {
    RunMore(m, s, trace, x);
    NewAddress(m, s.lines, Run(m, s, trace), p, q, x);
  }

  lemma FillAfterChurn<S>(m: Machine<S>, s: CacheSet<S>, p: nat, q: nat, n: nat, k: nat)
    requires Churned(m, s, p, n, k) && Lacks(s.lines, n + k) && q < |s.lines| && NthVictim(m, s.policy, k) == q
    ensures var t, t' := Run(m, s, NewOnes(n, k)), Run(m, s, NewOnes(n, k + 1));
            HitCount(m, s, NewOnes(n, k + 1)) == 0 && SameBut(t.lines, t'.lines, q) && t'.lines[q] == Tag(n + k)
  {
    OneNewAddress(m, s, NewOnes(n, k), NewOnes(n, k + 1), p, q, n + k);
  }

  /** New addresses replace each other in way p, and the last one goes to way q. */
  lemma ChurnThenFill<S>(m: Machine<S>, s: CacheSet<S>, p: nat, q: nat, n: nat, k: nat)
    requires p < |s.lines| && q < |s.lines| && forall x: nat :: n <= x ==> Lacks(s.lines, x)
    requires (forall i: nat :: i < k ==> NthVictim(m, s.policy, i) == p) && NthVictim(m, s.policy, k) == q
    ensures HitCount(m, s, NewOnes(n, k + 1)) == 0
    ensures var t, t' := Run(m, s, NewOnes(n, k)), Run(m, s, NewOnes(n, k + 1));
            Churned(m, s, p, n, k) && SameBut(t.lines, t'.lines, q) && t'.lines[q] == Tag(n + k)
  {
    Churn(m, s, p, n, k);
    assert Lacks(s.lines, n + k);
    FillAfterChurn(m, s, p, q, n, k);
  }

  /** If each way is taken once, the fills put address b into the way that was taken then. */
  lemma FilledInTurn<S(!new)>(m: Machine<S>, inv: S -> bool, p: S, b: nat)
    requires Keeps(m, inv) && inv(p) && EachOnce(m, p) && b < m.ways
    ensures var lines := Run(m, Fresh(m, p), Numbers(m.ways)).lines;
            |lines| == m.ways && lines[NthVictim(m, p, b)] == Tag(b)
  {
    var xs, ways := Numbers(m.ways), Victims(m, p, m.ways);
    NumbersAreDistinct(m.ways);
    FillRun(m, inv, p, xs);
    OnceIsLast(m, p, ways);
    assert LastIn(ways, b);
    LinesHold(m.ways, ways, xs, b);
  }

  /** States of which one takes each way once and the other does not are told apart by a trace. */
  lemma FillsDiffer<S(!new)>(m: Machine<S>, inv: S -> bool, p: S, q: S) returns (trace: seq<nat>)
    requires Keeps(m, inv) && inv(p) && inv(q) && !EachOnce(m, p) && EachOnce(m, q)
    ensures HitCount(m, Fresh(m, p), trace) != HitCount(m, Fresh(m, q), trace)
  {
    FillAndReuse(m, inv, p);
    FillAndReuse(m, inv, q);
    var i: nat :| i < m.ways && !ReusesHit(m, p, Numbers(m.ways) + [i]);
    trace := Numbers(m.ways) + [i];
    assert ReusesHit(m, q, trace);
  }
}
