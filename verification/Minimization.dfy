/**
 The quadratic algorithms that test one candidate at a time, and the sets that they end with.
 */
module Minimizations {
  import opened Swaps
  import opened EvictionSets

  /** No member can be dropped. */
  ghost predicate OneMinimal(evicts: Oracle, m: multiset<nat>) {
    forall x :: x in m ==> !evicts(m - multiset{x})
  }

  /** The members before cb are known to be crucial among those before ce. */
  ghost predicate Crucial(evicts: Oracle, s: seq<nat>, cb: nat, ce: nat) {
    cb <= ce <= |s| && forall i :: 0 <= i < cb ==> !evicts(multiset(s[..ce]) - multiset{s[i]})
  }

  /** The loop's state: Reduced as for the group tests, and the crucial prefix. */
  ghost predicate Sorting(evicts: Oracle, orig: multiset<nat>, s: seq<nat>, cb: nat, ce: nat) {
    Reduced(evicts, orig, s, ce) && cb <= ce && (Monotone(evicts) ==> Crucial(evicts, s, cb, ce))
  }

  lemma FewerEvict(evicts: Oracle, m: multiset<nat>, m': multiset<nat>, x: nat)
    requires Monotone(evicts) && m <= m' && !evicts(m' - multiset{x})
    ensures !evicts(m - multiset{x})
  {
    assert MonotoneAt(evicts, m - multiset{x}, m' - multiset{x});
  }

  lemma FrontWithin(s: seq<nat>, n: nat)
    requires n < |s|
    ensures multiset(s[..n + 1]) == multiset(s[..n]) + multiset{s[n]}
  {
    assert s[..n + 1] == s[..n] + [s[n]];
  }

  lemma CrucialShrinks(evicts: Oracle, s: seq<nat>, cb: nat, ce: nat)
    requires Monotone(evicts) && Crucial(evicts, s, cb, ce) && cb < ce
    ensures Crucial(evicts, s, cb, ce - 1)
  {
    FrontWithin(s, ce - 1);
    forall i | 0 <= i < cb ensures !evicts(multiset(s[..ce - 1]) - multiset{s[i]}) {
      FewerEvict(evicts, multiset(s[..ce - 1]), multiset(s[..ce]), s[i]);
    }
  }

  lemma DropCandidate(evicts: Oracle, orig: multiset<nat>, s: seq<nat>, cb: nat, ce: nat)
    requires Sorting(evicts, orig, s, cb, ce) && cb < ce && evicts(multiset(s[..ce - 1]))
    ensures Sorting(evicts, orig, s, cb, ce - 1)
  {
    if Monotone(evicts) { CrucialShrinks(evicts, s, cb, ce); }
  }

  lemma SwappedFront(s: seq<nat>, i: nat, j: nat, n: nat)
    requires i <= j < n <= |s|
    ensures multiset(Swapped(s, i, j)[..n]) == multiset(s[..n])
  {
    assert Swapped(s, i, j)[..n] == Swapped(s[..n], i, j);
    SwappedMultiset(s[..n], i, j);
  }

  lemma CrucialGrows(evicts: Oracle, s: seq<nat>, r: seq<nat>, cb: nat, ce: nat)
    requires Crucial(evicts, s, cb, ce) && cb < ce && !evicts(multiset(s[..ce - 1]))
    requires |r| == |s| && multiset(r[..ce]) == multiset(s[..ce])
    requires r[cb] == s[ce - 1] && forall i :: 0 <= i < cb ==> r[i] == s[i]
    ensures Crucial(evicts, r, cb + 1, ce)
  {
    FrontWithin(s, ce - 1);
    OneMember(multiset(s[..ce - 1]), multiset(r[..ce]), r[cb]);
    OneMoreCrucial(evicts, multiset(s[..ce]), multiset(s[..ce - 1]), s, r, cb);
  }

  lemma OneMoreCrucial(
    evicts: Oracle, front: multiset<nat>, rest: multiset<nat>, s: seq<nat>, r: seq<nat>, cb: nat)
    requires cb < |s| == |r| && !evicts(rest) && front - multiset{r[cb]} == rest
    requires forall i :: 0 <= i < cb ==> r[i] == s[i] && !evicts(front - multiset{s[i]})
    ensures forall i :: 0 <= i < cb + 1 ==> !evicts(front - multiset{r[i]})
  {}

  lemma OneMember(a: multiset<nat>, b: multiset<nat>, x: nat)
    requires b == a + multiset{x}
    ensures b - multiset{x} == a
  {}

  lemma KeepCandidate(evicts: Oracle, orig: multiset<nat>, s: seq<nat>, r: seq<nat>, cb: nat, ce: nat)
    requires Sorting(evicts, orig, s, cb, ce) && cb < ce && !evicts(multiset(s[..ce - 1]))
    requires r == Swapped(s, cb, ce - 1)
    ensures Sorting(evicts, orig, r, cb + 1, ce)
  {
    SwappedFront(s, cb, ce - 1, ce);
    SwappedMultiset(s, cb, ce - 1);
    if Monotone(evicts) { CrucialGrows(evicts, s, r, cb, ce); }
  }

  lemma AllCrucial(evicts: Oracle, s: seq<nat>, n: nat)
    requires Crucial(evicts, s, n, n)
    ensures OneMinimal(evicts, multiset(s[..n]))
  {
    forall x | x in multiset(s[..n]) ensures !evicts(multiset(s[..n]) - multiset{x}) {
      var i :| 0 <= i < n && s[..n][i] == x;
      assert s[i] == x;
    }
  }

  /** One candidate, the last: drop it, or move it to the crucial prefix. */
  method TestCandidate(
    evicts: Oracle, a: array<nat>, cb: nat, ce: nat, ghost orig: multiset<nat>) returns (cb': nat, ce': nat)
    requires cb < ce <= a.Length && Sorting(evicts, orig, a[..], cb, ce)
    modifies a
    ensures ce' <= ce && ce' - cb' == ce - cb - 1 && Sorting(evicts, orig, a[..], cb', ce')
  {
    cb', ce' := cb, ce;
    assert a[..][..ce - 1] == a[..ce - 1];
    ghost var s := a[..];
    if evicts(multiset(a[..ce - 1])) {
      DropCandidate(evicts, orig, s, cb, ce);
      ce' := ce' - 1;
    } else {
      Swap(a, cb, ce - 1);
      KeepCandidate(evicts, orig, s, a[..], cb, ce);
      cb' := cb' + 1;
    }
  }

  method MinimizeEvictionSetSlow(evicts: Oracle, a: array<nat>) returns (last: nat)
    modifies a
    ensures last <= a.Length && multiset(a[..]) == multiset(old(a[..]))
    ensures Monotone(evicts) && evicts(multiset(old(a[..]))) ==> evicts(multiset(a[..last]))
    ensures Monotone(evicts) ==> OneMinimal(evicts, multiset(a[..last]))
  {
    ghost var orig := multiset(a[..]);
    assert a[..a.Length] == a[..];
    var cb: nat := 0;
    last := a.Length;
    while cb != last
      invariant Sorting(evicts, orig, a[..], cb, last)
      decreases last - cb
    {
      cb, last := TestCandidate(evicts, a, cb, last, orig);
    }
    assert a[..][..last] == a[..last];
    if Monotone(evicts) { AllCrucial(evicts, a[..], last); }
  }

  lemma Sizes(e: multiset<nat>, m: multiset<nat>)
    requires e <= m
    ensures |m| == |e| + |m - e| && (|e| == |m| ==> e == m)
  {
    assert m == e + (m - e);
  }

  lemma SpareMember(e: multiset<nat>, m: multiset<nat>) returns (x: nat)
    requires e <= m && |e| < |m|
    ensures x in m && e <= m - multiset{x}
  {
    Sizes(e, m);
    x :| x in m - e;
  }

  /** With such an oracle, an eviction set larger than a core has a member to drop. */
  lemma MinimalWithinBound(evicts: Oracle, m: multiset<nat>, k: nat)
    requires Monotone(evicts) && Bounded(evicts, k) && evicts(m)
    ensures OneMinimal(evicts, m) ==> |m| <= k
  {
    assert HasCore(evicts, m, k);
    var e :| e <= m && |e| <= k && evicts(e);
    if |m| > k {
      var x := SpareMember(e, m);
      MoreEvicts(evicts, e, m - multiset{x});
    }
  }

  /** The failure of the slow reduction: a one-minimal eviction set that is too large. */
  ghost predicate TooLarge(evicts: Oracle, m: multiset<nat>, maxSize: nat) {
    |m| > maxSize && OneMinimal(evicts, m) && evicts(m)
  }

  lemma NoCandidateLeft(evicts: Oracle, orig: multiset<nat>, s: seq<nat>, n: nat, k: nat)
    requires Sorting(evicts, orig, s, n, n) && n > k
    ensures Monotone(evicts) && evicts(orig) ==> TooLarge(evicts, multiset(s[..n]), k)
    ensures !Suited(evicts, orig, k)
  {
    if Monotone(evicts) && evicts(orig) {
      AllCrucial(evicts, s, n);
      if Bounded(evicts, k) { MinimalWithinBound(evicts, multiset(s[..n]), k); }
    }
  }

  method ReduceEvictionSetSlow(evicts: Oracle, a: array<nat>, maxSize: nat) returns (last: nat, ghost left: nat)
    modifies a
    ensures last <= left <= a.Length && last <= maxSize && multiset(a[..]) == multiset(old(a[..]))
    ensures Monotone(evicts) && evicts(multiset(old(a[..]))) ==>
              if last == left then evicts(multiset(a[..last]))
              else last == 0 && TooLarge(evicts, multiset(a[..left]), maxSize)
    ensures Suited(evicts, multiset(old(a[..])), maxSize) ==> last == left && (last == 0 ==> evicts(multiset{}))
  {
    ghost var orig := multiset(a[..]);
    assert a[..a.Length] == a[..];
    var cb: nat := 0;
    last := a.Length;
    while last > maxSize
      invariant Sorting(evicts, orig, a[..], cb, last)
      decreases last - cb
    {
      if cb == last {
        NoCandidateLeft(evicts, orig, a[..], last, maxSize);
        assert a[..][..last] == a[..last];
        return 0, last;
      }
      cb, last := TestCandidate(evicts, a, cb, last, orig);
    }
    left := last;
    assert a[..][..last] == a[..last];
  }

  // ----- The threshold oracle -----

  ghost predicate AllIn(m: multiset<nat>, inSet: nat -> bool) {
    forall x :: x in m ==> inSet(x)
  }

  ghost predicate Reaches(m: multiset<nat>, inSet: nat -> bool, ways: nat) {
    exists e :: e <= m && |e| == ways && AllIn(e, inSet)
  }

  /** What the eviction test computes: at least as many addresses of the target's set as ways. */
  ghost predicate Threshold(evicts: Oracle, inSet: nat -> bool, ways: nat) {
    forall m :: evicts(m) <==> Reaches(m, inSet, ways)
  }

  lemma ThresholdSuits(evicts: Oracle, inSet: nat -> bool, ways: nat)
    requires Threshold(evicts, inSet, ways)
    ensures Monotone(evicts) && Bounded(evicts, ways) && (evicts(multiset{}) <==> ways == 0)
  {
    forall a, b ensures MonotoneAt(evicts, a, b) {
      if a <= b && evicts(a) {
        var e :| e <= a && |e| == ways && AllIn(e, inSet);
        assert e <= b;
      }
    }
    forall m | evicts(m) ensures HasCore(evicts, m, ways) {
      var e :| e <= m && |e| == ways && AllIn(e, inSet);
      assert Reaches(e, inSet, ways);
    }
    if ways == 0 { assert AllIn(multiset{}, inSet); }
  }

  lemma ReachesSize(m: multiset<nat>, inSet: nat -> bool, ways: nat)
    requires Reaches(m, inSet, ways)
    ensures |m| >= ways && (|m| == ways ==> AllIn(m, inSet))
  {
    var e :| e <= m && |e| == ways && AllIn(e, inSet);
    Sizes(e, m);
  }

  lemma ExactReaches(m: multiset<nat>, inSet: nat -> bool, ways: nat)
    requires |m| == ways && AllIn(m, inSet)
    ensures Reaches(m, inSet, ways) && forall x :: x in m ==> !Reaches(m - multiset{x}, inSet, ways)
  {
    forall x | x in m ensures !Reaches(m - multiset{x}, inSet, ways) {
      if Reaches(m - multiset{x}, inSet, ways) { ReachesSize(m - multiset{x}, inSet, ways); }
    }
  }

  /** Under the threshold oracle a one-minimal set is exactly one address of the set per way. */
  lemma ThresholdMinimal(evicts: Oracle, inSet: nat -> bool, ways: nat, m: multiset<nat>)
    requires Threshold(evicts, inSet, ways)
    ensures evicts(m) && OneMinimal(evicts, m) <==> |m| == ways && AllIn(m, inSet)
  {
    ThresholdSuits(evicts, inSet, ways);
    if evicts(m) {
      MinimalWithinBound(evicts, m, ways);
      ReachesSize(m, inSet, ways);
    }
    if |m| == ways && AllIn(m, inSet) { ExactReaches(m, inSet, ways); }
  }

  /** An eviction set no larger than the ways, as the reductions return it: one address of the set per way. */
  lemma ThresholdReduced(evicts: Oracle, inSet: nat -> bool, ways: nat, m: multiset<nat>)
    requires Threshold(evicts, inSet, ways) && evicts(m) && |m| <= ways
    ensures |m| == ways && AllIn(m, inSet)
  {
    ReachesSize(m, inSet, ways);
  }

  /** With the number of ways as its bound, the reduction ends with exactly one address of the set per way. */
  method ReduceToWays(evicts: Oracle, a: array<nat>, ghost inSet: nat -> bool, ways: nat) returns (last: nat)
    requires ways > 0 && Threshold(evicts, inSet, ways) && evicts(multiset(a[..]))
    modifies a
    ensures multiset(a[..]) == multiset(old(a[..]))
    ensures last == ways <= a.Length && AllIn(multiset(a[..last]), inSet)
  {
    ThresholdSuits(evicts, inSet, ways);
    last := ReduceEvictionSet(evicts, a, ways);
    ThresholdReduced(evicts, inSet, ways, multiset(a[..last]));
  }
}
